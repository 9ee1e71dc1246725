/**
 What the single tags of mpd-show.c print: the texts of the song, the time, and the
 tag that prints nothing.
 */
module ShowTags {
  import opened Common
  import opened ShowFormat
  import opened ShowGroups

  // ---------- the time ----------

  lemma {:induction false} NoLeadingZero(n: nat)
    requires 0 < n
    ensures Digits(n)[0] != '0'
  {
    if 10 <= n {
      NoLeadingZero(n / 10);
    }
  }

  /** Two columns at least, filled in front of a single digit. */
  lemma PaddedReads(i: int, fill: char)
    requires fill == ' ' || fill == '0'
    ensures var text := Padded(i, [fill]);
            && Atoi(text) == i && 2 <= |text| && (|text| == 2 || text == Print(i))
            && (text[0] == fill ==> 0 <= i < 10) && (text[0] == '0' ==> fill == '0')
            && (0 <= i && fill == '0' ==> Decimal(text, 0) == i)
            && forall c | c in text :: c == fill || c == '-' || '0' <= c <= '9'
  {
    AtoiPrint(i);
    var d := Digits(if i < 0 then -i else i);
    DecimalDigits(if i < 0 then -i else i);
    assert d[0] in d;
    if 0 < i {
      NoLeadingZero(i);
    }
    if |Print(i)| < 2 {
      assert ([fill] + d)[1..] == d;
    }
  }

  /** Minutes and seconds of a number of 32 bits fit the buffer. */
  lemma ClockFits(time: int, minutes: int, seconds: int)
    requires -0x8000_0000 <= time < 0x8000_0000
    requires minutes == Quotient(time, 60) && seconds == time - 60 * minutes
    ensures -60 < seconds < 60 && (0 <= time ==> 0 <= seconds) && (time <= 0 ==> seconds <= 0)
    ensures Clock(time) == Padded(minutes, " ") + ":" + Padded(seconds, "0")
    ensures 0 <= time ==> |Padded(seconds, "0")| == 2
  {
    assert Pow(10, 2) == 100;
    assert Pow(10, 4) == 10000;
    assert Pow(10, 6) == 100 * Pow(10, 4) && Pow(10, 8) == 100 * Pow(10, 6);
    DigitsLength(if minutes < 0 then -minutes else minutes, 8);
    DigitsLength(if seconds < 0 then -seconds else seconds, 2);
  }

  /** The text can be split at its colon. */
  lemma ColonBetween(text: string, m: string, s: string)
    requires text == m + ":" + s && ':' !in m
    ensures First(text, ':') == |m| < |text| && text[..|m|] == m && text[|m| + 1..] == s
  {
    assert text[|m|] == ':' && forall i | 0 <= i < |m| :: text[i] == m[i] != ':';
  }

  /**
   `%time%` reads as minutes and seconds that make up the time again: below a minute of
   seconds, in two digits, and minutes filled with a blank to two columns.
   */
  lemma TimeReads(song: Song)
    requires -0x8000_0000 <= song.time < 0x8000_0000 && song.time != -1
    ensures var text := TagText(song, "time"); var k := First(text, ':');
            && k < |text|
            && var m, s := text[..k], text[k + 1..];
               && 2 <= |m| && 60 * Atoi(m) + Atoi(s) == song.time && -60 < Atoi(s) < 60
               && (0 <= song.time ==> |s| == 2 && 0 <= Decimal(s, 0) == Atoi(s))
               && (m[0] == ' ' ==> |m| == 2 && 0 <= Atoi(m) < 10) && m[0] != '0' && ' ' !in s
  {
    var minutes := Quotient(song.time, 60);
    var seconds := song.time - 60 * minutes;
    var m, s := Padded(minutes, " "), Padded(seconds, "0");
    var text := TagText(song, "time");
    ClockFits(song.time, minutes, seconds);
    PaddedReads(minutes, ' ');
    PaddedReads(seconds, '0');
    ColonBetween(text, m, s);
  }

  lemma TimeAt125(song: Song)
    requires song.time == 125
    ensures TagText(song, "time") == " 2:05"
  {
  }

  // ---------- a tag alone ----------

  lemma TagAlone(skip: Skip, tags: Tags, name: string)
    requires TagName(name)
    ensures Safe("%" + name + "%", 0) && Format(skip, "%" + name + "%", tags) == TagOutput(tags, name)
  {
    var fmt := "%" + name + "%";
    assert Stands(fmt, 0, Head(name));
    SafeEnd(fmt, name);
    FirstTagEval(skip, fmt, tags, 0, name);
    EvalAtEnd(skip, fmt, tags, TagOutput(tags, name), TagFound(tags, name));
  }

  lemma SafeEnd(fmt: string, name: string)
    requires fmt == "%" + name + "%" && TagName(name)
    ensures Safe(fmt, 0)
  {
    forall i | 0 <= i < |fmt|
      ensures fmt[i] != '#'
    {
      assert 0 < i < |fmt| - 1 ==> fmt[i] == name[i - 1] && name[i - 1] in name;
    }
    SafeBefore(fmt, 0, |fmt|);
  }

  /** What `%name%` prints for a song. */
  function Printed(song: Song, name: string): string
    requires TagName(name)
  {
    TagAlone(AsCoded, TagsOf(song), name);
    Format(AsCoded, "%" + name + "%", TagsOf(song))
  }

  predicate IsCopied(name: string) {
    name in ["artist", "title", "album", "track", "name", "date", "genre", "composer", "disc", "comment"]
  }

  predicate IsTag(name: string) {
    IsCopied(name) || name in ["path", "time", "dir", "file", "filenoext", "pathnoext"]
  }

  /** The tags that are copied, the path, and what is no tag at all. */
  lemma PlainTagsPrint(song: Song, name: string)
    requires TagName(name)
    ensures IsCopied(name) ==>
              Printed(song, name) == if name in song.tags then song.tags[name] else ""
    ensures name == "path" ==> Printed(song, name) == if song.file.Some? then song.file.value else ""
    ensures name == "time" && song.time == -1 ==> Printed(song, name) == ""
    ensures song.file.None? && name in ["dir", "file", "filenoext", "pathnoext"] ==> Printed(song, name) == ""
    ensures !IsTag(name) ==> Printed(song, name) == ""
  {
    TagAlone(AsCoded, TagsOf(song), name);
  }

  /** The others print what the lemmas about their texts say. */
  lemma OtherTagsPrint(song: Song, name: string)
    requires name in ["time", "dir", "file", "filenoext", "pathnoext"]
    ensures TagName(name) && Printed(song, name) == TagText(song, name)
  {
    TagAlone(AsCoded, TagsOf(song), name);
  }

  /** `%Y%` prints nothing, and yet a group that holds it and text is printed. */
  lemma FlagPrints(skip: Skip, song: Song, text: string)
    ensures Safe("%Y%", 0) && Format(skip, "%Y%", TagsOf(song)) == ""
    ensures var fmt := "[" + Quote(text) + "%Y%]"; Safe(fmt, 0) && Format(skip, fmt, TagsOf(song)) == text
  {
    assert "%" + "Y" + "%" == "%Y%";
    TagAlone(skip, TagsOf(song), "Y");
    var fmt, q := "[" + Quote(text) + "%Y%]", 1 + |Quote(text)|;
    FlagLayout(fmt, text, q);
    FlagEval(skip, fmt, TagsOf(song), text, q);
  }

  lemma FlagLayout(fmt: string, text: string, q: nat)
    requires fmt == "[" + Quote(text) + "%Y%]" && q == 1 + |Quote(text)|
    ensures |fmt| == q + 4 && Stands(fmt, q, Head("Y")) && fmt[q + 3] == ']' && fmt[0] == '['
    ensures Safe(fmt, 0) && Safe(fmt, 1) && Safe(fmt, q) && QuotedAt(fmt, 1, text)
  {
    assert fmt[q..] == "%Y%]";
    assert forall i | q <= i < |fmt| :: fmt[i] == fmt[q..][i - q];
    SafeBefore(fmt, q, |fmt|);
    QuoteIsSafe("[", text, "%Y%]");
    QuoteIsQuoted("[", text, "%Y%]");
    SafeBefore(fmt, 0, 1);
  }

  lemma FlagEval(skip: Skip, fmt: string, tags: Tags, text: string, q: nat)
    requires q == 1 + |Quote(text)| && |fmt| == q + 4 && Stands(fmt, q, Head("Y")) && fmt[q + 3] == ']' && fmt[0] == '['
    requires Safe(fmt, 0) && Safe(fmt, 1) && QuotedAt(fmt, 1, text) && tags("Y") == None
    ensures Format(skip, fmt, tags) == text
  {
    assert "" + text == text && text + TagOutput(tags, "Y") == text;
    QuoteEval(skip, fmt, tags, 1, q, text, "", text, false);
    TagEval(skip, fmt, tags, q, "Y", text, false);
    GroupEnds(skip, fmt, tags, q + 3, text, true);
    FirstGroupEval(skip, fmt, tags, 0, (text, |fmt|));
    EvalAtEnd(skip, fmt, tags, text, text != "");
  }
}
