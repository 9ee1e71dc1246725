/**
 Round trip of the MPD client's entities: songs, directories and playlists announced
 as pairs, in the keys of the protocol, come back as they were.
 */
module MpdAnnounced {
  import opened Common
  import opened MpdWire
  import opened MpdProtocol
  import opened MpdEntities

  /** The eleven keys of string tags, in some order of announcement. */
  const KEYS := ["Artist", "Album", "Title", "Track", "Name", "Date", "Genre",
                 "Composer", "Performer", "Disc", "Comment"]

  /** A song has a file or a position, non-empty tags under these keys, and numbers or -1 for none. */
  predicate Announced(e: Entity) {
    match e
    case DirectoryInfo(_) => true
    case PlaylistInfo(_) => true
    case SongInfo(song) => forall k | k in song.tags :: k in KEYS && song.tags[k] != ""
  }

  function TagPairs(keys: seq<string>, tags: map<string, string>): seq<Pair> {
    if keys == [] then []
    else (if keys[0] in tags then [Pair(keys[0], tags[keys[0]])] else []) + TagPairs(keys[1..], tags)
  }

  function NumberPair(key: string, n: int): seq<Pair> {
    if n == -1 then [] else [Pair(key, Print(n))]
  }

  function HeaderOf(e: Entity): Pair {
    match e
    case DirectoryInfo(path) => Pair("directory", path)
    case PlaylistInfo(path) => Pair("playlist", path)
    case SongInfo(song) => if song.file.Some? then Pair("file", song.file.value) else Pair("cpos", Print(song.pos))
  }

  function BodyOf(e: Entity): seq<Pair> {
    match e
    case DirectoryInfo(_) => []
    case PlaylistInfo(_) => []
    case SongInfo(song) =>
      TagPairs(KEYS, song.tags) + (NumberPair("Time", song.time) +
        ((if song.file.Some? then NumberPair("Pos", song.pos) else []) + NumberPair("Id", song.id)))
  }

  function AllPairs(es: seq<Entity>): seq<Pair> {
    if es == [] then [] else [HeaderOf(es[0])] + (BodyOf(es[0]) + AllPairs(es[1..]))
  }

  // ---------- first values in pieces of a body ----------

  lemma {:induction false} FirstValueOfTwo(a: seq<Pair>, b: seq<Pair>, key: string)
    ensures FirstValue(a + b, key) == if FirstValue(a, key).Some? then FirstValue(a, key) else FirstValue(b, key)
    decreases |a|
  {
    if a == [] {
      assert a + b == b;
    } else {
      assert (a + b)[1..] == a[1..] + b;
      FirstValueOfTwo(a[1..], b, key);
    }
  }

  lemma {:induction false} FirstNumberOfTwo(a: seq<Pair>, b: seq<Pair>, key: string)
    ensures FirstNumber(a + b, key) == if FirstNumber(a, key) != -1 then FirstNumber(a, key) else FirstNumber(b, key)
    decreases |a|
  {
    if a == [] {
      assert a + b == b;
    } else {
      assert (a + b)[1..] == a[1..] + b;
      FirstNumberOfTwo(a[1..], b, key);
    }
  }

  /** A pair of another name is passed over. */
  predicate Lacks(body: seq<Pair>, key: string) {
    forall i | 0 <= i < |body| :: body[i].name != key
  }

  lemma {:induction false} LacksNothing(body: seq<Pair>, key: string)
    requires Lacks(body, key)
    ensures FirstValue(body, key) == None && FirstNumber(body, key) == -1
  {
    if body != [] {
      LacksNothing(body[1..], key);
    }
  }

  lemma {:induction false} TagPairsHold(keys: seq<string>, tags: map<string, string>, key: string)
    requires forall k | k in tags :: tags[k] != ""
    ensures FirstValue(TagPairs(keys, tags), key) == if key in keys && key in tags then Some(tags[key]) else None
    ensures key !in keys ==> Lacks(TagPairs(keys, tags), key)
    decreases |keys|
  {
    if keys != [] {
      TagPairsHold(keys[1..], tags, key);
      var first := if keys[0] in tags then [Pair(keys[0], tags[keys[0]])] else [];
      FirstValueOfTwo(first, TagPairs(keys[1..], tags), key);
      assert keys == [keys[0]] + keys[1..];
      if keys[0] in tags {
        assert first[1..] == [];
      }
    }
  }

  lemma NumberPairHolds(key: string, n: int, other: string)
    ensures FirstNumber(NumberPair(key, n), key) == n
    ensures other != key ==> Lacks(NumberPair(key, n), other)
  {
    AtoiPrint(n);
    if n != -1 {
      var p := NumberPair(key, n);
      DecimalDigits(if n < 0 then -n else n);
      assert p[1..] == [];
    }
  }

  /** The body of a song holds its tags and its numbers. */
  lemma SongBody(song: Song, key: string)
    requires Announced(SongInfo(song))
    ensures var body := BodyOf(SongInfo(song));
            && (key in KEYS ==> FirstValue(body, key) == if key in song.tags then Some(song.tags[key]) else None)
            && (key == "Time" ==> FirstNumber(body, key) == song.time)
            && (key == "Pos" ==> FirstNumber(body, key) == if song.file.Some? then song.pos else -1)
            && (key == "Id" ==> FirstNumber(body, key) == song.id)
  {
    var a, b := TagPairs(KEYS, song.tags), NumberPair("Time", song.time);
    var c, d := if song.file.Some? then NumberPair("Pos", song.pos) else [], NumberPair("Id", song.id);
    TagPairsHold(KEYS, song.tags, key);
    NumberPairHolds("Time", song.time, key);
    NumberPairHolds("Pos", song.pos, key);
    NumberPairHolds("Id", song.id, key);
    if Lacks(a, key) {
      LacksNothing(a, key);
    }
    if Lacks(b, key) {
      LacksNothing(b, key);
    }
    if Lacks(c, key) {
      LacksNothing(c, key);
    }
    if Lacks(d, key) {
      LacksNothing(d, key);
    }
    FirstValueOfTwo(a, b + (c + d), key);
    FirstValueOfTwo(b, c + d, key);
    FirstValueOfTwo(c, d, key);
    FirstNumberOfTwo(a, b + (c + d), key);
    FirstNumberOfTwo(b, c + d, key);
    FirstNumberOfTwo(c, d, key);
  }

  lemma KeysAreTheTags(k: string)
    ensures k in KEYS <==> k in TAG_KEYS
  {
  }

  /** An entity's own pairs denote it. */
  lemma DenotesItself(e: Entity)
    requires Announced(e)
    ensures IsHeader(HeaderOf(e).name) && EntityOf(HeaderOf(e), BodyOf(e)) == e
  {
    if e.SongInfo? {
      var song, body := e.song, BodyOf(e);
      forall k
        ensures k in TagsOf(TAG_KEYS, body) <==> k in song.tags
        ensures k in song.tags ==> TagsOf(TAG_KEYS, body)[k] == song.tags[k]
      {
        KeysAreTheTags(k);
        SongBody(song, k);
      }
      assert TagsOf(TAG_KEYS, body) == song.tags;
      SongBody(song, "Time");
      SongBody(song, "Pos");
      SongBody(song, "Id");
      AtoiPrint(song.pos);
    }
  }

  // ---------- bodies hold no header ----------

  predicate Headless(body: seq<Pair>) {
    forall i | 0 <= i < |body| :: !IsHeader(body[i].name)
  }

  lemma {:induction false} TagPairsAreHeadless(keys: seq<string>, tags: map<string, string>)
    requires forall k | k in keys :: !IsHeader(k)
    ensures Headless(TagPairs(keys, tags))
    decreases |keys|
  {
    if keys != [] {
      assert keys[0] in keys && forall k | k in keys[1..] :: k in keys;
      TagPairsAreHeadless(keys[1..], tags);
    }
  }

  lemma BodyIsHeadless(e: Entity)
    ensures Headless(BodyOf(e))
  {
    if e.SongInfo? {
      assert forall i | 0 <= i < |KEYS| :: !IsHeader(KEYS[i]);
      TagPairsAreHeadless(KEYS, e.song.tags);
      assert Headless(NumberPair("Time", e.song.time)) && Headless(NumberPair("Pos", e.song.pos));
      assert Headless(NumberPair("Id", e.song.id));
    }
  }

  lemma {:induction false} BodyEnds(body: seq<Pair>, rest: seq<Pair>)
    requires Headless(body) && (rest != [] ==> IsHeader(rest[0].name))
    ensures Body(body + rest) == body && Rest(body + rest) == rest
    decreases |body|
  {
    if body == [] {
      assert body + rest == rest;
    } else {
      assert (body + rest)[1..] == body[1..] + rest && (body + rest)[0] == body[0];
      BodyEnds(body[1..], rest);
      assert [body[0]] + body[1..] == body;
    }
  }

  // ---------- the round trip ----------

  lemma HeaderIsHeader(e: Entity)
    ensures IsHeader(HeaderOf(e).name)
  {
  }

  lemma StartsWithHeader(es: seq<Entity>)
    ensures AllPairs(es) != [] ==> IsHeader(AllPairs(es)[0].name)
  {
    if es != [] {
      HeaderIsHeader(es[0]);
    }
  }

  lemma FirstEntity(header: Pair, body: seq<Pair>, rest: seq<Pair>)
    requires IsHeader(header.name) && Headless(body) && (rest != [] ==> IsHeader(rest[0].name))
    ensures var pairs := [header] + (body + rest);
            Group(pairs) == [EntityOf(header, body)] + Group(rest)
  {
    var pairs := [header] + (body + rest);
    BodyEnds(body, rest);
    assert pairs[1..] == body + rest;
  }

  /** Any entities, announced one behind the other, are grouped into themselves. */
  lemma {:induction false} AnnouncedEntitiesComeBack(es: seq<Entity>)
    requires forall e | e in es :: Announced(e)
    ensures AllPairs(es) != [] ==> IsHeader(AllPairs(es)[0].name)
    ensures Group(AllPairs(es)) == es
  {
    StartsWithHeader(es);
    if es != [] {
      StartsWithHeader(es[1..]);
      BodyIsHeadless(es[0]);
      DenotesItself(es[0]);
      FirstEntity(HeaderOf(es[0]), BodyOf(es[0]), AllPairs(es[1..]));
      AnnouncedEntitiesComeBack(es[1..]);
      assert [es[0]] + es[1..] == es;
    }
  }

  /** The answer to a single command. */
  lemma PairsAreRead(v: View, pairs: seq<Pair>, rest: string)
    requires (pairs != [] ==> IsHeader(pairs[0].name)) && forall p | p in pairs :: WellFormed(p)
    requires !v.done && v.listOks == 0 && v.elem == None && v.stream == Join(Lines(pairs), "OK\n" + rest)
    ensures Entities(v).0 == Group(pairs) && Entities(v).1.error == v.error && Entities(v).1.stream == rest
  {
    var a := Answer(pairs, "OK", rest);
    assert "OK" + "\n" + rest == "OK\n" + rest;
    EntitiesAreTheGroups(v, a);
  }

  /** And mpd_getNextInfoEntity returns them one by one. */
  lemma AnnouncedEntitiesAreRead(v: View, es: seq<Entity>, pairs: seq<Pair>, rest: string)
    requires (forall e | e in es :: Announced(e)) && pairs == AllPairs(es) && forall p | p in pairs :: WellFormed(p)
    requires !v.done && v.listOks == 0 && v.elem == None && v.stream == Join(Lines(pairs), "OK\n" + rest)
    ensures Entities(v).0 == es && Entities(v).1.error == v.error && Entities(v).1.stream == rest
  {
    AnnouncedEntitiesComeBack(es);
    PairsAreRead(v, pairs, rest);
  }

  /** The first non-empty value of a key wins, wherever it stands in the body of a song. */
  lemma FirstNonEmptyWins(file: string, before: seq<Pair>, key: string, value: string, behind: seq<Pair>)
    requires key in KEYS && value != ""
    requires forall i | 0 <= i < |before| :: before[i].name == key ==> before[i].value == ""
    ensures var e := EntityOf(Pair("file", file), before + ([Pair(key, value)] + behind));
            e.SongInfo? && key in e.song.tags && e.song.tags[key] == value
  {
    var body := before + ([Pair(key, value)] + behind);
    KeysAreTheTags(key);
    NothingYet(before, key);
    FirstValueOfTwo(before, [Pair(key, value)] + behind, key);
    assert TagsOf(TAG_KEYS, body)[key] == value;
  }

  lemma {:induction false} NothingYet(before: seq<Pair>, key: string)
    requires forall i | 0 <= i < |before| :: before[i].name == key ==> before[i].value == ""
    ensures FirstValue(before, key) == None
  {
    if before != [] {
      NothingYet(before[1..], key);
    }
  }

  /** A key that opens no entity is an error, and the pair stays in sight. */
  lemma StrayPairIsAnError(v: View)
    requires !Blocked(v) && v.elem.Some?
    requires v.elem.value.name !in {"file", "directory", "playlist", "cpos"}
    ensures InfoEntity(v) == (None, v.(error := 1))
  {
  }
}
