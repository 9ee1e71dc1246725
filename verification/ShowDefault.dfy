/**
 The default format of mpd-show.c, for every song: what it prints as coded, what it
 would print if skips counted brackets, and when the two differ.
 */
module ShowDefault {
  import opened Common
  import opened ShowFormat
  import opened ShowGroups

  /** `[[[%artist% <&%album%> ]|%artist% - |<%album%> ]&[[%track%. &%title%]|%title%]]|...`, in pieces. */
  const DEFAULT_FORMAT :=
    "[[[%artist% <&%album%> ]|" + "%artist% - |" + "<%album%> ]&[[" + "%track%. &%title%]|" + "%title%]]|[" +
    "%track%. &%title%]|" + "%title%|%filenoext%"

  // ---------- steps ----------

  lemma {:induction false} TextEval(skip: Skip, fmt: string, tags: Tags, p: nat, text: string,
                                    acc: string, all: string, found: bool)
    requires Stands(fmt, p, text) && TagName(text) && Safe(fmt, p) && all == acc + text
    ensures var q := p + |text|;
            Safe(fmt, q) && Eval(skip, fmt, tags, p, acc, found) == Eval(skip, fmt, tags, q, all, found)
    decreases |text|
  {
    if text == "" {
      assert all == acc;
    } else {
      assert text[0] in text && fmt[p] == text[0];
      PlainStep(skip, fmt, tags, p, acc, found);
      assert acc + [text[0]] + text[1..] == all;
      TextEval(skip, fmt, tags, p + 1, text[1..], acc + [text[0]], all, found);
    }
  }

  /** Counting brackets over text that holds none. */
  lemma {:induction false} CountsOverText(fmt: string, p: nat, text: string, open: nat)
    requires Stands(fmt, p, text) && 0 < open
    requires forall c | c in text :: c != '[' && c != ']' && c != '#'
    ensures DepthSkip(fmt, p, open) == DepthSkip(fmt, p + |text|, open)
    decreases |text|
  {
    if text != "" {
      assert text[0] in text && fmt[p] == text[0];
      assert forall c | c in text[1..] :: c in text;
      CountsOverText(fmt, p + 1, text[1..], open);
    }
  }

  // ---------- `%a% - &%b%...]` ----------

  /** A tag and text, up to `q`. */
  predicate FrontAt(fmt: string, p: nat, a: string, mid: string, q: nat) {
    && TagName(a) && TagName(mid) && q == p + |a| + 2 + |mid|
    && Stands(fmt, p, Head(a)) && Stands(fmt, p + |a| + 2, mid)
  }

  /** A tag and text, and the bracket that ends the group at `e`. */
  predicate BackAt(fmt: string, p: nat, b: string, end: string, e: nat) {
    0 < e <= |fmt| && FrontAt(fmt, p, b, end, e - 1) && fmt[e - 1] == ']'
  }

  predicate PairAt(fmt: string, p: nat, a: string, mid: string, q: nat, b: string, end: string, e: nat) {
    FrontAt(fmt, p, a, mid, q) && q < |fmt| && fmt[q] == '&' && BackAt(fmt, q + 1, b, end, e)
  }

  /** Without the first tag, the code goes on behind the bracket, with the text in between. */
  lemma PairEval(skip: Skip, fmt: string, tags: Tags, p: nat, a: string, mid: string, q: nat,
                 b: string, end: string, e: nat)
    requires PairAt(fmt, p, a, mid, q, b, end, e) && Safe(fmt, p) && Safe(fmt, e)
    ensures Eval(skip, fmt, tags, p, "", false) ==
            if TagFound(tags, a)
            then (if TagFound(tags, b) then TagOutput(tags, a) + mid + TagOutput(tags, b) + end else "", e)
            else if skip.AsCoded? then Eval(skip, fmt, tags, e, mid, false)
            else ("", e)
  {
    var out := TagOutput(tags, a);
    assert "" + out == out;
    FrontEval(skip, fmt, tags, p, a, mid, q, "", out, out + mid, false);
    if TagFound(tags, a) {
      AndGoesOn(skip, fmt, tags, q, out + mid);
      BackEval(skip, fmt, tags, q + 1, b, end, e, out + mid);
    } else {
      assert out + mid == mid;
      BackSkipped(skip, fmt, tags, q, b, end, e, mid);
    }
  }

  lemma FrontEval(skip: Skip, fmt: string, tags: Tags, p: nat, a: string, mid: string, q: nat,
                  acc: string, out: string, all: string, found: bool)
    requires FrontAt(fmt, p, a, mid, q) && Safe(fmt, p) && out == acc + TagOutput(tags, a) && all == out + mid
    ensures q <= |fmt| && Safe(fmt, q)
    ensures Eval(skip, fmt, tags, p, acc, found) == Eval(skip, fmt, tags, q, all, found || TagFound(tags, a))
  {
    TagEval(skip, fmt, tags, p, a, acc, found);
    TextEval(skip, fmt, tags, p + |a| + 2, mid, out, all, found || TagFound(tags, a));
  }

  lemma BackEval(skip: Skip, fmt: string, tags: Tags, p: nat, b: string, end: string, e: nat, acc: string)
    requires BackAt(fmt, p, b, end, e) && Safe(fmt, p)
    ensures Eval(skip, fmt, tags, p, acc, false)
         == (if TagFound(tags, b) then acc + TagOutput(tags, b) + end else "", e)
  {
    var out := acc + TagOutput(tags, b);
    FrontEval(skip, fmt, tags, p, b, end, e - 1, acc, out, out + end, false);
    GroupEnds(skip, fmt, tags, e - 1, out + end, TagFound(tags, b));
  }

  lemma BackSkips(fmt: string, p: nat, b: string, end: string, e: nat)
    requires BackAt(fmt, p, b, end, e)
    ensures SkipTo(fmt, p) == e && DepthSkip(fmt, p, 0) == e - 1
  {
    SkipPlain(fmt, p, Head(b));
    SkipPlain(fmt, p + |b| + 2, end);
  }

  lemma BackSkipped(skip: Skip, fmt: string, tags: Tags, q: nat, b: string, end: string, e: nat, acc: string)
    requires q < |fmt| && fmt[q] == '&' && Safe(fmt, q) && BackAt(fmt, q + 1, b, end, e) && Safe(fmt, e)
    ensures Eval(skip, fmt, tags, q, acc, false)
         == if skip.AsCoded? then Eval(skip, fmt, tags, e, acc, false) else ("", e)
  {
    BackSkips(fmt, q + 1, b, end, e);
    SignSkips(skip, fmt, tags, q, acc, if skip.AsCoded? then e else e - 1);
    if skip.ByDepth? {
      GroupEnds(skip, fmt, tags, e - 1, acc, false);
    }
  }

  // ---------- the layout ----------

  predicate PiecesStand(fmt: string) {
    && |fmt| == 119 && Stands(fmt, 0, "[[[%artist% <&%album%> ]|") && Stands(fmt, 25, "%artist% - |")
    && Stands(fmt, 37, "<%album%> ]&[[") && Stands(fmt, 51, "%track%. &%title%]|")
    && Stands(fmt, 70, "%title%]]|[") && Stands(fmt, 81, "%track%. &%title%]|")
    && Stands(fmt, 100, "%title%|%filenoext%")
  }

  lemma LookAtPieces()
    ensures PiecesStand(DEFAULT_FORMAT)
  {
  }

  /** `%track%. &%title%]`, which stands twice. */
  lemma TrackAndTitleIn(fmt: string, p: nat)
    requires Stands(fmt, p, "%track%. &%title%]|")
    ensures PairAt(fmt, p, "track", ". ", p + 9, "title", "", p + 18) && fmt[p + 18] == '|'
    ensures Stands(fmt, p, "%track%. &%title%") && fmt[p + 17] == ']'
  {
  }

  lemma TrackAndTitle(fmt: string, p: nat)
    requires fmt == DEFAULT_FORMAT && (p == 51 || p == 81)
    ensures |fmt| == 119
    ensures PairAt(fmt, p, "track", ". ", p + 9, "title", "", p + 18) && fmt[p + 18] == '|'
    ensures Stands(fmt, p, "%track%. &%title%") && fmt[p + 17] == ']'
  {
    LookAtPieces();
    TrackAndTitleIn(fmt, p);
  }

  lemma ArtistAndAlbumIn(fmt: string)
    requires Stands(fmt, 0, "[[[%artist% <&%album%> ]|")
    ensures fmt[0] == fmt[1] == fmt[2] == '[' && PairAt(fmt, 3, "artist", " <", 13, "album", "> ", 24) && fmt[24] == '|'
  {
  }

  lemma ArtistAndAlbum(fmt: string)
    requires fmt == DEFAULT_FORMAT
    ensures |fmt| == 119
    ensures fmt[0] == fmt[1] == fmt[2] == '[' && PairAt(fmt, 3, "artist", " <", 13, "album", "> ", 24) && fmt[24] == '|'
  {
    LookAtPieces();
    ArtistAndAlbumIn(fmt);
  }

  lemma ArtistAloneIn(fmt: string)
    requires Stands(fmt, 25, "%artist% - |")
    ensures FrontAt(fmt, 25, "artist", " - ", 36) && fmt[36] == '|'
  {
  }

  lemma ArtistAlone(fmt: string)
    requires fmt == DEFAULT_FORMAT
    ensures |fmt| == 119
    ensures FrontAt(fmt, 25, "artist", " - ", 36) && fmt[36] == '|'
  {
    LookAtPieces();
    ArtistAloneIn(fmt);
  }

  lemma AlbumAloneIn(fmt: string)
    requires Stands(fmt, 37, "<%album%> ]&[[")
    ensures Stands(fmt, 37, "<") && BackAt(fmt, 38, "album", "> ", 48)
    ensures fmt[48] == '&' && fmt[49] == fmt[50] == '['
  {
  }

  lemma AlbumAlone(fmt: string)
    requires fmt == DEFAULT_FORMAT
    ensures |fmt| == 119
    ensures Stands(fmt, 37, "<") && BackAt(fmt, 38, "album", "> ", 48)
    ensures fmt[48] == '&' && fmt[49] == fmt[50] == '['
  {
    LookAtPieces();
    AlbumAloneIn(fmt);
  }

  lemma TitleAloneIn(fmt: string)
    requires Stands(fmt, 70, "%title%]]|[")
    ensures BackAt(fmt, 70, "title", "", 78) && fmt[78] == ']' && fmt[79] == '|' && fmt[80] == '['
  {
  }

  lemma TitleAlone(fmt: string)
    requires fmt == DEFAULT_FORMAT
    ensures |fmt| == 119
    ensures BackAt(fmt, 70, "title", "", 78) && fmt[78] == ']' && fmt[79] == '|' && fmt[80] == '['
  {
    LookAtPieces();
    TitleAloneIn(fmt);
  }

  lemma TitleOrFileIn(fmt: string)
    requires Stands(fmt, 100, "%title%|%filenoext%")
    ensures Stands(fmt, 100, Head("title")) && fmt[107] == '|' && Stands(fmt, 108, Head("filenoext"))
  {
  }

  lemma TitleOrFile(fmt: string)
    requires fmt == DEFAULT_FORMAT
    ensures |fmt| == 119
    ensures Stands(fmt, 100, Head("title")) && fmt[107] == '|' && Stands(fmt, 108, Head("filenoext"))
  {
    LookAtPieces();
    TitleOrFileIn(fmt);
  }

  /** Nothing is quoted, so reading is safe from everywhere. */
  lemma NothingIsQuoted(p: nat)
    requires p <= |DEFAULT_FORMAT|
    ensures Safe(DEFAULT_FORMAT, p)
  {
    var fmt := DEFAULT_FORMAT;
    LookAtPieces();
    PiecesHoldNoHash(fmt);
    assert Safe(fmt, |fmt|);
    SafeBefore(fmt, p, |fmt|);
  }

  predicate Unquoted(fmt: string, p: nat, q: nat) {
    q <= |fmt| && forall i | p <= i < q :: fmt[i] != '#'
  }

  lemma PiecesHoldNoHash(fmt: string)
    requires PiecesStand(fmt)
    ensures Unquoted(fmt, 0, |fmt|)
  {
    assert Unquoted(fmt, 0, 25) && Unquoted(fmt, 25, 37) && Unquoted(fmt, 37, 51) && Unquoted(fmt, 51, 70);
    assert Unquoted(fmt, 70, 81) && Unquoted(fmt, 81, 100) && Unquoted(fmt, 100, 119);
  }

  /** What the lemmas below use of the format. */
  ghost predicate IsDefault(fmt: string) {
    fmt == DEFAULT_FORMAT && forall p | 0 <= p <= |fmt| :: Safe(fmt, p)
  }

  lemma DefaultIsDefault()
    ensures IsDefault(DEFAULT_FORMAT)
  {
    LookAtPieces();
    forall p | 0 <= p <= |DEFAULT_FORMAT|
      ensures Safe(DEFAULT_FORMAT, p)
    {
      NothingIsQuoted(p);
    }
  }

  // ---------- what is meant ----------

  /** Every tag of the format has a text, if only an empty one. */
  predicate Named(tags: Tags) {
    && tags("artist").Some? && tags("album").Some? && tags("track").Some? && tags("title").Some?
    && tags("filenoext").Some?
  }

  predicate HasHeader(tags: Tags) {
    TagFound(tags, "artist") || TagFound(tags, "album")
  }

  /** Artist and album, as far as the song has them. */
  function Header(tags: Tags): string {
    var artist, album := TagOutput(tags, "artist"), TagOutput(tags, "album");
    if TagFound(tags, "artist") && TagFound(tags, "album") then artist + " <" + album + "> "
    else if TagFound(tags, "artist") then artist + " - "
    else if TagFound(tags, "album") then "<" + album + "> "
    else ""
  }

  /** The title, behind the track number if the song has one. */
  function Numbered(tags: Tags): string {
    if TagFound(tags, "track") then TagOutput(tags, "track") + ". " + TagOutput(tags, "title")
    else TagOutput(tags, "title")
  }

  /** What is printed instead of everything else. */
  function Tail(tags: Tags): string {
    if TagFound(tags, "title") then Numbered(tags) else TagOutput(tags, "filenoext")
  }

  // ---------- the end of the format ----------

  /** Behind the last signs, nothing is printed any more once something is found. */
  lemma LastSkipped(skip: Skip, fmt: string, tags: Tags, acc: string)
    requires IsDefault(fmt)
    ensures fmt[107] == '|' && Eval(skip, fmt, tags, 107, acc, true) == (acc, 119)
  {
    TitleOrFile(fmt);
    SkipPlain(fmt, 108, Head("filenoext"));
    SignSkips(skip, fmt, tags, 107, acc, 119);
    EvalAtEnd(skip, fmt, tags, acc, true);
  }

  lemma TailSkipped(skip: Skip, fmt: string, tags: Tags, acc: string)
    requires IsDefault(fmt)
    ensures fmt[99] == '|' && Eval(skip, fmt, tags, 99, acc, true) == (acc, 119)
  {
    TitleOrFile(fmt);
    TrackAndTitle(fmt, 81);
    SkipPlain(fmt, 100, Head("title"));
    SignSkips(skip, fmt, tags, 99, acc, 107);
    LastSkipped(skip, fmt, tags, acc);
  }

  lemma TitleOrFileEval(skip: Skip, fmt: string, tags: Tags)
    requires IsDefault(fmt)
    ensures Eval(skip, fmt, tags, 100, "", false)
         == (if TagFound(tags, "title") then TagOutput(tags, "title") else TagOutput(tags, "filenoext"), 119)
  {
    var title := TagOutput(tags, "title");
    TitleOrFile(fmt);
    FirstTagEval(skip, fmt, tags, 100, "title");
    if TagFound(tags, "title") {
      LastSkipped(skip, fmt, tags, title);
    } else {
      OrGoesOn(skip, fmt, tags, 107, title);
      FileEval(skip, fmt, tags);
    }
  }

  lemma FileEval(skip: Skip, fmt: string, tags: Tags)
    requires IsDefault(fmt)
    ensures Eval(skip, fmt, tags, 108, "", false) == (TagOutput(tags, "filenoext"), 119)
  {
    var file := TagOutput(tags, "filenoext");
    TitleOrFile(fmt);
    FirstTagEval(skip, fmt, tags, 108, "filenoext");
    EvalAtEnd(skip, fmt, tags, file, TagFound(tags, "filenoext"));
  }

  /** What the group of track and title at 81 comes to. */
  lemma LastPairEval(skip: Skip, fmt: string, tags: Tags) returns (r: (string, nat))
    requires IsDefault(fmt)
    ensures r == Eval(skip, fmt, tags, 81, "", false)
    ensures TagFound(tags, "track") && TagFound(tags, "title") ==> r == (Numbered(tags), 99) && r.0 != ""
    ensures !(TagFound(tags, "track") && TagFound(tags, "title")) ==> r == ("", 99) || r == (Tail(tags), 119)
  {
    var track, title := TagOutput(tags, "track"), TagOutput(tags, "title");
    TrackAndTitle(fmt, 81);
    PairEval(skip, fmt, tags, 81, "track", ". ", 90, "title", "", 99);
    assert track + ". " + title + "" == track + ". " + title;
    r := Eval(skip, fmt, tags, 81, "", false);
    if !TagFound(tags, "track") && skip.AsCoded? {
      OrGoesOn(skip, fmt, tags, 99, ". ");
      TitleOrFileEval(skip, fmt, tags);
    }
  }

  /** The rest of the format, when nothing has been found before it. */
  lemma TailPrinted(skip: Skip, fmt: string, tags: Tags, acc: string)
    requires IsDefault(fmt)
    ensures fmt[79] == '|' && Eval(skip, fmt, tags, 79, acc, false) == (Tail(tags), 119)
  {
    TitleAlone(fmt);
    TrackAndTitle(fmt, 81);
    OrGoesOn(skip, fmt, tags, 79, acc);
    var r := LastPairEval(skip, fmt, tags);
    FirstGroupEval(skip, fmt, tags, 80, r);
    if r.1 == 119 {
      EvalAtEnd(skip, fmt, tags, r.0, r.0 != "");
    } else if r.0 != "" {
      TailSkipped(skip, fmt, tags, r.0);
    } else {
      OrGoesOn(skip, fmt, tags, 99, "");
      TitleOrFileEval(skip, fmt, tags);
    }
  }

  /** A flat group that holds `%track%. &%title%`, as skipBraces and both skips see it. */
  lemma SkipsTrackAndTitle(fmt: string, p: nat, open: nat)
    requires p + 19 < |fmt| && Stands(fmt, p + 1, "%track%. &%title%") && fmt[p] == '[' && fmt[p + 18] == ']'
    requires fmt[p + 19] == '|'
    ensures FirstFrom(fmt, p, ']') == p + 18 && SkipTo(fmt, p) == p + 19
    ensures DepthSkip(fmt, p, open) == DepthSkip(fmt, p + 19, open)
  {
    FirstBracket(fmt, p + 1, "%track%. &%title%");
    CountsOverText(fmt, p + 1, "%track%. &%title%", open + 1);
  }

  lemma {:induction false} FirstBracket(fmt: string, p: nat, text: string)
    requires Stands(fmt, p, text) && (forall c | c in text :: c != ']') && p + |text| < |fmt| && fmt[p + |text|] == ']'
    ensures FirstFrom(fmt, p, ']') == p + |text|
    decreases |text|
  {
    if text != "" {
      assert text[0] in text && fmt[p] == text[0];
      assert forall c | c in text[1..] :: c in text;
      FirstBracket(fmt, p + 1, text[1..]);
    }
  }

  /** Nothing of it, when something has. */
  lemma TailKept(skip: Skip, fmt: string, tags: Tags, acc: string)
    requires IsDefault(fmt)
    ensures fmt[79] == '|' && Eval(skip, fmt, tags, 79, acc, true) == (acc, 119)
  {
    TitleAlone(fmt);
    TrackAndTitle(fmt, 81);
    SkipsTrackAndTitle(fmt, 80, 0);
    SignSkips(skip, fmt, tags, 79, acc, 99);
    TailSkipped(skip, fmt, tags, acc);
  }

  // ---------- track and title behind a header ----------

  /** `%title%]` at 70. */
  lemma TitleEval(skip: Skip, fmt: string, tags: Tags)
    requires IsDefault(fmt)
    ensures Eval(skip, fmt, tags, 70, "", false)
         == (if TagFound(tags, "title") then TagOutput(tags, "title") else "", 78)
  {
    var title := TagOutput(tags, "title");
    TitleAlone(fmt);
    BackEval(skip, fmt, tags, 70, "title", "", 78, "");
    assert "" + title + "" == title;
  }

  /** Track and title at 51, up to the sign behind their group or up to the bracket behind that. */
  lemma PairOrTitle(skip: Skip, fmt: string, tags: Tags) returns (r: (string, nat))
    requires IsDefault(fmt) && Named(tags)
    ensures fmt[50] == '[' && r == Eval(skip, fmt, tags, 51, "", false)
    ensures r == if TagFound(tags, "track") || skip.ByDepth?
                 then (if TagFound(tags, "track") && TagFound(tags, "title") then Numbered(tags) else "", 69)
                 else (if TagFound(tags, "title") then Numbered(tags) else "", 78)
  {
    var track, title := TagOutput(tags, "track"), TagOutput(tags, "title");
    AlbumAlone(fmt);
    TrackAndTitle(fmt, 51);
    PairEval(skip, fmt, tags, 51, "track", ". ", 60, "title", "", 69);
    assert track + ". " + title + "" == track + ". " + title;
    r := Eval(skip, fmt, tags, 51, "", false);
    if !TagFound(tags, "track") && skip.AsCoded? {
      TitleInstead(skip, fmt, tags, ". ");
    }
  }

  lemma NumberedIsSeen(tags: Tags)
    requires Named(tags) && TagFound(tags, "title")
    ensures Numbered(tags) != ""
  {
  }

  /** `|%title%]` at 69: skipped with its bracket, or evaluated. */
  lemma TitleSkipped(skip: Skip, fmt: string, tags: Tags, acc: string)
    requires IsDefault(fmt)
    ensures fmt[69] == '|' && Eval(skip, fmt, tags, 69, acc, true) == (acc, if skip.AsCoded? then 79 else 78)
  {
    TitleAlone(fmt);
    TrackAndTitle(fmt, 51);
    BackSkips(fmt, 70, "title", "", 78);
    SignSkips(skip, fmt, tags, 69, acc, if skip.AsCoded? then 78 else 77);
    GroupEnds(skip, fmt, tags, if skip.AsCoded? then 78 else 77, acc, true);
  }

  lemma TitleInstead(skip: Skip, fmt: string, tags: Tags, acc: string)
    requires IsDefault(fmt)
    ensures fmt[69] == '|' && Eval(skip, fmt, tags, 69, acc, false)
                           == (if TagFound(tags, "title") then TagOutput(tags, "title") else "", 78)
  {
    TrackAndTitle(fmt, 51);
    OrGoesOn(skip, fmt, tags, 69, acc);
    TitleEval(skip, fmt, tags);
  }

  /** The group at 50 behind its inner group, with a text, without one, and as coded behind the title. */
  lemma PairPrinted(skip: Skip, fmt: string, tags: Tags, text: string)
    requires IsDefault(fmt) && fmt[50] == '[' && Eval(skip, fmt, tags, 51, "", false) == (text, 69) && text != ""
    ensures Eval(skip, fmt, tags, 50, "", false) == (text, if skip.AsCoded? then 79 else 78)
  {
    FirstGroupEval(skip, fmt, tags, 50, (text, 69));
    TitleSkipped(skip, fmt, tags, text);
  }

  lemma PairMissing(skip: Skip, fmt: string, tags: Tags)
    requires IsDefault(fmt) && fmt[50] == '[' && Eval(skip, fmt, tags, 51, "", false) == ("", 69)
    ensures Eval(skip, fmt, tags, 50, "", false)
         == (if TagFound(tags, "title") then TagOutput(tags, "title") else "", 78)
  {
    FirstGroupEval(skip, fmt, tags, 50, ("", 69));
    TitleInstead(skip, fmt, tags, "");
  }

  lemma PairLeft(skip: Skip, fmt: string, tags: Tags, text: string)
    requires IsDefault(fmt) && fmt[50] == '[' && Eval(skip, fmt, tags, 51, "", false) == (text, 78)
    ensures Eval(skip, fmt, tags, 50, "", false) == (text, 79)
  {
    FirstGroupEval(skip, fmt, tags, 50, (text, 78));
    TitleAlone(fmt);
    GroupEnds(skip, fmt, tags, 78, text, text != "");
  }

  /** `[%track%. &%title%]|%title%]` at 50: the text, and where as coded it ends. */
  lemma TitleGroup(skip: Skip, fmt: string, tags: Tags)
    requires IsDefault(fmt) && Named(tags)
    ensures var text := if TagFound(tags, "title") then Numbered(tags) else "";
            Eval(skip, fmt, tags, 50, "", false) ==
            (text, if skip.AsCoded? && (TagFound(tags, "title") || !TagFound(tags, "track")) then 79 else 78)
  {
    var r := PairOrTitle(skip, fmt, tags);
    if TagFound(tags, "title") {
      NumberedIsSeen(tags);
    }
    if r.1 == 78 {
      PairLeft(skip, fmt, tags, r.0);
    } else if r.0 != "" {
      PairPrinted(skip, fmt, tags, r.0);
    } else {
      PairMissing(skip, fmt, tags);
    }
  }

  // ---------- the sign between header and title ----------

  /** Skipping the title group at 49: as coded, only up to its inner sign. */
  lemma SkipsTitleGroup(fmt: string)
    requires IsDefault(fmt)
    ensures SkipTo(fmt, 49) == 69 && DepthSkip(fmt, 49, 0) == 78
  {
    AlbumAlone(fmt);
    TrackAndTitle(fmt, 51);
    TitleAlone(fmt);
    SkipsTrackAndTitle(fmt, 50, 1);
    assert FirstFrom(fmt, 49, ']') == FirstFrom(fmt, 50, ']') == 68;
    assert SkipTo(fmt, 49) == SkipTo(fmt, 69) == 69;
    assert DepthSkip(fmt, 49, 0) == DepthSkip(fmt, 50, 1) == DepthSkip(fmt, 69, 1) == DepthSkip(fmt, 70, 1);
    CountsOverText(fmt, 70, Head("title"), 1);
    assert DepthSkip(fmt, 77, 1) == DepthSkip(fmt, 78, 0) == 78;
  }

  /** The title group at 49, behind a header `h`. */
  lemma TitleAdded(skip: Skip, fmt: string, tags: Tags, h: string) returns (r: (string, nat))
    requires IsDefault(fmt) && Named(tags)
    ensures fmt[48] == '&' && fmt[78] == ']' && r.1 <= 119
    ensures r == (if TagFound(tags, "title") then Numbered(tags) else "",
                  if skip.AsCoded? && (TagFound(tags, "title") || !TagFound(tags, "track")) then 79 else 78)
    ensures r.0 != "" <==> TagFound(tags, "title")
    ensures Eval(skip, fmt, tags, 48, h, true) == Eval(skip, fmt, tags, r.1, h + r.0, r.0 != "")
  {
    AlbumAlone(fmt);
    TitleAlone(fmt);
    TitleGroup(skip, fmt, tags);
    if TagFound(tags, "title") {
      NumberedIsSeen(tags);
    }
    r := Eval(skip, fmt, tags, 50, "", false);
    IntoGroup(skip, fmt, tags, h, r);
  }

  lemma IntoGroup(skip: Skip, fmt: string, tags: Tags, h: string, r: (string, nat))
    requires IsDefault(fmt) && fmt[48] == '&' && fmt[49] == '[' && r == Eval(skip, fmt, tags, 50, "", false)
    ensures r.1 <= 119 && Eval(skip, fmt, tags, 48, h, true) == Eval(skip, fmt, tags, r.1, h + r.0, r.0 != "")
  {
    AndGoesOn(skip, fmt, tags, 48, h);
    GroupEval(skip, fmt, tags, 49, h, false, r);
  }

  /** Behind a header: the title is added, or everything is taken back. */
  lemma HeaderFound(skip: Skip, fmt: string, tags: Tags, h: string)
    requires IsDefault(fmt) && Named(tags)
    ensures fmt[48] == '&'
    ensures Eval(skip, fmt, tags, 48, h, true) ==
            if skip.ByDepth? then (if TagFound(tags, "title") then h + Numbered(tags) else "", 79)
            else if TagFound(tags, "title") then (h + Numbered(tags), 119)
            else if TagFound(tags, "track") then ("", 79) else (Tail(tags), 119)
  {
    var r := TitleAdded(skip, fmt, tags, h);
    if r.1 == 78 {
      GroupEnds(skip, fmt, tags, 78, h + r.0, r.0 != "");
    } else if r.0 != "" {
      TailKept(skip, fmt, tags, h + r.0);
    } else {
      TailPrinted(skip, fmt, tags, h + r.0);
    }
  }

  /** Without one, the code does not skip the whole group and prints the bare title. */
  lemma HeaderMissing(skip: Skip, fmt: string, tags: Tags)
    requires IsDefault(fmt) && Named(tags)
    ensures Eval(skip, fmt, tags, 48, "", false) ==
            if skip.ByDepth? then ("", 79)
            else (if TagFound(tags, "title") then TagOutput(tags, "title") else "", 78)
  {
    AlbumAlone(fmt);
    TitleAlone(fmt);
    SkipsTitleGroup(fmt);
    if skip.ByDepth? {
      SignSkips(skip, fmt, tags, 48, "", 78);
      GroupEnds(skip, fmt, tags, 78, "", false);
    } else {
      SignSkips(skip, fmt, tags, 48, "", 69);
      TitleInstead(skip, fmt, tags, "");
    }
  }

  // ---------- the header ----------

  /** `<%album%> ]` at 37. */
  lemma AlbumEval(skip: Skip, fmt: string, tags: Tags)
    requires IsDefault(fmt)
    ensures Eval(skip, fmt, tags, 37, "", false)
         == (if TagFound(tags, "album") then "<" + TagOutput(tags, "album") + "> " else "", 48)
  {
    AlbumAlone(fmt);
    assert "" + "<" == "<";
    TextEval(skip, fmt, tags, 37, "<", "", "<", false);
    BackEval(skip, fmt, tags, 38, "album", "> ", 48, "<");
  }

  /** A header that is found stands, behind its group or as coded inside it. */
  lemma HeaderStands(skip: Skip, fmt: string, tags: Tags, h: string)
    requires IsDefault(fmt)
    ensures fmt[36] == '|' && fmt[48] == '&'
    ensures Eval(skip, fmt, tags, 36, h, true) == if skip.AsCoded? then Eval(skip, fmt, tags, 48, h, true) else (h, 48)
  {
    ArtistAlone(fmt);
    AlbumAlone(fmt);
    SkipPlain(fmt, 37, "<");
    BackSkips(fmt, 38, "album", "> ", 48);
    SignSkips(skip, fmt, tags, 36, h, if skip.AsCoded? then 48 else 47);
    if skip.ByDepth? {
      GroupEnds(skip, fmt, tags, 47, h, true);
    }
  }

  /** Artist or album alone, at 25. */
  lemma OneOfBoth(skip: Skip, fmt: string, tags: Tags)
    requires IsDefault(fmt)
    ensures Eval(skip, fmt, tags, 25, "", false) ==
            if TagFound(tags, "artist")
            then (var h := TagOutput(tags, "artist") + " - ";
                  if skip.AsCoded? then Eval(skip, fmt, tags, 48, h, true) else (h, 48))
            else (if TagFound(tags, "album") then "<" + TagOutput(tags, "album") + "> " else "", 48)
  {
    var artist := TagOutput(tags, "artist");
    assert "" + artist == artist;
    ArtistAlone(fmt);
    FrontEval(skip, fmt, tags, 25, "artist", " - ", 36, "", artist, artist + " - ", false);
    if TagFound(tags, "artist") {
      HeaderStands(skip, fmt, tags, artist + " - ");
    } else {
      OrGoesOn(skip, fmt, tags, 36, artist + " - ");
      AlbumEval(skip, fmt, tags);
    }
  }

  /** Behind `[%artist% <&%album%> ]` at 24, when both are found. */
  lemma BothStand(skip: Skip, fmt: string, tags: Tags, h: string)
    requires IsDefault(fmt)
    ensures fmt[24] == '|' && fmt[48] == '&'
    ensures Eval(skip, fmt, tags, 24, h, true) == if skip.AsCoded? then Eval(skip, fmt, tags, 48, h, true) else (h, 48)
  {
    ArtistAndAlbum(fmt);
    ArtistAlone(fmt);
    SkipPlain(fmt, 25, Head("artist"));
    SkipPlain(fmt, 33, " - ");
    SignSkips(skip, fmt, tags, 24, h, 36);
    HeaderStands(skip, fmt, tags, h);
  }

  lemma HeaderGroup(skip: Skip, fmt: string, tags: Tags)
    requires IsDefault(fmt) && Named(tags)
    ensures Eval(skip, fmt, tags, 2, "", false) ==
            if skip.AsCoded? then Eval(skip, fmt, tags, 48, Header(tags), HasHeader(tags)) else (Header(tags), 48)
  {
    ArtistAndAlbum(fmt);
    PairEval(skip, fmt, tags, 3, "artist", " <", 13, "album", "> ", 24);
    OneOfBoth(skip, fmt, tags);
    if !TagFound(tags, "artist") && skip.AsCoded? {
      OrGoesOn(skip, fmt, tags, 24, " <");
    }
    var r := Eval(skip, fmt, tags, 3, "", false);
    FirstGroupEval(skip, fmt, tags, 2, r);
    if r.1 == 24 && r.0 != "" {
      BothStand(skip, fmt, tags, r.0);
    } else if r.1 == 24 {
      OrGoesOn(skip, fmt, tags, 24, "");
    }
  }

  // ---------- the whole format ----------

  /** Everything inside the first bracket: the text, and where it is left. */
  lemma FirstGroup(skip: Skip, fmt: string, tags: Tags)
    requires IsDefault(fmt) && Named(tags)
    ensures var title := TagFound(tags, "title"); var full := Header(tags) + Numbered(tags);
            Eval(skip, fmt, tags, 1, "", false) ==
            if HasHeader(tags) && title then (full, if skip.AsCoded? then 119 else 79)
            else if skip.ByDepth? then ("", 79)
            else if HasHeader(tags) then (Tail(tags), 119)
            else (if title then TagOutput(tags, "title") else "", 79)
  {
    var h, t := Header(tags), TagOutput(tags, "title");
    ArtistAndAlbum(fmt);
    AlbumAlone(fmt);
    TitleAlone(fmt);
    HeaderGroup(skip, fmt, tags);
    var r := Eval(skip, fmt, tags, 2, "", false);
    FirstGroupEval(skip, fmt, tags, 1, r);
    if HasHeader(tags) {
      HeaderFound(skip, fmt, tags, h);
      if r.1 == 119 {
        EvalAtEnd(skip, fmt, tags, r.0, r.0 != "");
      } else if r.1 == 79 {
        TailPrinted(skip, fmt, tags, "");
      }
    } else {
      HeaderMissing(skip, fmt, tags);
      if r.1 == 78 {
        GroupEnds(skip, fmt, tags, 78, r.0, r.0 != "");
      }
    }
  }

  /**
   What the default format prints.  Counting brackets: header and title, numbered if
   possible, or without a header the title alone, or without a title the file.  As
   coded the title is never numbered without a header.
   */
  function Printed(skip: Skip, tags: Tags): string {
    if HasHeader(tags) && TagFound(tags, "title") then Header(tags) + Numbered(tags)
    else if skip.AsCoded? && TagFound(tags, "title") then TagOutput(tags, "title")
    else Tail(tags)
  }

  lemma DefaultFormatPrints(skip: Skip, tags: Tags)
    requires Named(tags)
    ensures Safe(DEFAULT_FORMAT, 0) && Format(skip, DEFAULT_FORMAT, tags) == Printed(skip, tags)
  {
    DefaultIsDefault();
    WholeFormat(skip, DEFAULT_FORMAT, tags);
  }

  /** What comes behind the first bracket, when it is left at the sign. */
  lemma Whole(skip: Skip, fmt: string, tags: Tags, text: string)
    requires IsDefault(fmt)
    ensures fmt[79] == '|' && Eval(skip, fmt, tags, 79, text, text != "").0 == if text != "" then text else Tail(tags)
  {
    if text != "" {
      TailKept(skip, fmt, tags, text);
    } else {
      TailPrinted(skip, fmt, tags, "");
    }
  }

  /** Where the first group is left, and what that makes of the whole. */
  lemma FirstGroupLeft(skip: Skip, fmt: string, tags: Tags) returns (r: (string, nat))
    requires IsDefault(fmt) && Named(tags)
    ensures r == Eval(skip, fmt, tags, 1, "", false) && (r.1 == 119 || r.1 == 79)
    ensures Printed(skip, tags) == if r.1 == 79 && r.0 == "" then Tail(tags) else r.0
  {
    FirstGroup(skip, fmt, tags);
    r := Eval(skip, fmt, tags, 1, "", false);
    if TagFound(tags, "title") {
      NumberedIsSeen(tags);
    }
  }

  lemma WholeFormat(skip: Skip, fmt: string, tags: Tags)
    requires IsDefault(fmt) && Named(tags)
    ensures Eval(skip, fmt, tags, 0, "", false).0 == Printed(skip, tags)
  {
    ArtistAndAlbum(fmt);
    var r := FirstGroupLeft(skip, fmt, tags);
    FirstGroupEval(skip, fmt, tags, 0, r);
    if r.1 == 119 {
      EvalAtEnd(skip, fmt, tags, r.0, r.0 != "");
    } else {
      Whole(skip, fmt, tags, r.0);
    }
  }

  /**
   As coded, the default format prints what it means for every song but those that
   have track and title and neither artist nor album: they lose their track number.
   */
  lemma DefaultFormatIsRightIff(song: Song)
    ensures var fmt, tags := DEFAULT_FORMAT, TagsOf(song);
            && Safe(fmt, 0)
            && (Format(AsCoded, fmt, tags) == Format(ByDepth, fmt, tags) <==>
                HasHeader(tags) || !TagFound(tags, "track") || !TagFound(tags, "title"))
  {
    var tags := TagsOf(song);
    DefaultFormatPrints(AsCoded, tags);
    DefaultFormatPrints(ByDepth, tags);
    var track, title := TagOutput(tags, "track"), TagOutput(tags, "title");
    assert |track + ". " + title| > |title|;
  }

  /** Such a song: `T` is printed where `1. T` is meant. */
  lemma TrackIsLost()
    ensures var song := Song(None, map["track" := "1", "title" := "T"], -1);
            && Safe(DEFAULT_FORMAT, 0)
            && Format(AsCoded, DEFAULT_FORMAT, TagsOf(song)) == "T"
            && Format(ByDepth, DEFAULT_FORMAT, TagsOf(song)) == "1. T"
  {
    var song := Song(None, map["track" := "1", "title" := "T"], -1);
    var tags := TagsOf(song);
    DefaultFormatPrints(AsCoded, tags);
    DefaultFormatPrints(ByDepth, tags);
    assert TagOutput(tags, "track") == "1" && TagOutput(tags, "title") == "T";
    assert TagOutput(tags, "artist") == "" && TagOutput(tags, "album") == "";
    assert "1" + ". " + "T" == "1. T";
  }
}
