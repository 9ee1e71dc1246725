/**
 mpd_getNextInfoEntity: pairs are grouped into songs, directories and playlists,
 with one pair of lookahead kept in the connection.
 */
module MpdEntities {
  import opened Common
  import opened MpdWire
  import opened MpdProtocol

  const NO_NUMBER := -1

  /** The string tags of a song; an absent key is a NULL field. */
  const TAG_KEYS := {"Artist", "Album", "Title", "Track", "Name", "Date", "Genre",
                     "Composer", "Performer", "Disc", "Comment"}

  datatype Song = Song(file: Option<string>, tags: map<string, string>, time: int, pos: int, id: int)

  datatype Entity = SongInfo(song: Song) | DirectoryInfo(path: string) | PlaylistInfo(path: string)

  predicate IsHeader(key: string) {
    key == "file" || key == "directory" || key == "playlist" || key == "cpos"
  }

  function NewSong(file: Option<string>, pos: int): Song {
    Song(file, map[], NO_NUMBER, pos, NO_NUMBER)
  }

  function Open(p: Pair): Entity
    requires IsHeader(p.name)
  {
    if p.name == "file" then SongInfo(NewSong(Some(p.value), NO_NUMBER))
    else if p.name == "directory" then DirectoryInfo(p.value)
    else if p.name == "playlist" then PlaylistInfo(p.value)
    else SongInfo(NewSong(None, Atoi(p.value)))
  }

  /** One pair of a song's body: empty values and tags already set are ignored. */
  function AbsorbTag(song: Song, p: Pair): Song {
    if p.value == "" then song
    else if p.name in TAG_KEYS then
      if p.name in song.tags then song else song.(tags := song.tags[p.name := p.value])
    else if p.name == "Time" && song.time == NO_NUMBER then song.(time := Atoi(p.value))
    else if p.name == "Pos" && song.pos == NO_NUMBER then song.(pos := Atoi(p.value))
    else if p.name == "Id" && song.id == NO_NUMBER then song.(id := Atoi(p.value))
    else song
  }

  function Absorb(e: Entity, p: Pair): Entity {
    if e.SongInfo? then SongInfo(AbsorbTag(e.song, p)) else e
  }

  /** The loop over the pairs of one entity, up to the next header or the end. */
  function ReadBody(v: View, e: Entity): (Option<Entity>, View)
    decreases v.elem.Some?, |v.stream|
  {
    if v.elem.None? || IsHeader(v.elem.value.name) then (Some(e), v)
    else
      StepShrinks(v);
      ReadBody(Step(v), Absorb(e, v.elem.value))
  }

  function InfoEntity(v: View): (Option<Entity>, View) {
    if Blocked(v) then (None, v)
    else
      var w := if v.elem.None? then Step(v) else v;
      if w.elem.None? then (None, w)
      else if !IsHeader(w.elem.value.name) then (None, w.(error := 1))
      else ReadBody(Step(w), Open(w.elem.value))
  }

  lemma {:induction false} ReadBodyShrinks(v: View, e: Entity)
    ensures var u := ReadBody(v, e).1; Blocked(u) || (!Blocked(v) && |u.stream| <= |v.stream|)
    decreases v.elem.Some?, |v.stream|
  {
    if v.elem.Some? && !IsHeader(v.elem.value.name) {
      StepShrinks(v);
      ReadBodyShrinks(Step(v), Absorb(e, v.elem.value));
    }
  }

  lemma InfoEntityShrinks(v: View)
    requires InfoEntity(v).0.Some?
    ensures var u := InfoEntity(v).1; !Blocked(v) && (Blocked(u) || |u.stream| < |v.stream|)
  {
    var w := if v.elem.None? then Step(v) else v;
    StepShrinks(v);
    StepShrinks(w);
    ReadBodyShrinks(Step(w), Open(w.elem.value));
  }

  /** Calling mpd_getNextInfoEntity until it returns NULL. */
  function Entities(v: View): (seq<Entity>, View)
    decreases !Blocked(v), |v.stream|
  {
    var (r, u) := InfoEntity(v);
    if r.None? then ([], u)
    else
      InfoEntityShrinks(v);
      var (more, end) := Entities(u);
      ([r.value] + more, end)
  }

  // ---------- the grouping, on the pair list alone ----------

  /** The pairs before the next header. */
  function Body(pairs: seq<Pair>): seq<Pair> {
    if pairs == [] || IsHeader(pairs[0].name) then [] else [pairs[0]] + Body(pairs[1..])
  }

  /** The pairs from the next header on. */
  function Rest(pairs: seq<Pair>): (r: seq<Pair>)
    ensures |r| <= |pairs| && (r != [] ==> IsHeader(r[0].name))
    ensures forall p | p in r :: p in pairs
  {
    if pairs == [] || IsHeader(pairs[0].name) then pairs else Rest(pairs[1..])
  }

  /** The first non-empty value of `key`. */
  function FirstValue(body: seq<Pair>, key: string): Option<string> {
    if body == [] then None
    else if body[0].name == key && body[0].value != "" then Some(body[0].value)
    else FirstValue(body[1..], key)
  }

  /** The first non-empty value of `key` that is not the number standing for "none". */
  function FirstNumber(body: seq<Pair>, key: string): int {
    if body == [] then NO_NUMBER
    else if body[0].name == key && body[0].value != "" && Atoi(body[0].value) != NO_NUMBER then Atoi(body[0].value)
    else FirstNumber(body[1..], key)
  }

  function OrFirst(n: int, body: seq<Pair>, key: string): int {
    if n != NO_NUMBER then n else FirstNumber(body, key)
  }

  function TagsOf(keys: set<string>, body: seq<Pair>): map<string, string> {
    map k | k in keys && FirstValue(body, k).Some? :: FirstValue(body, k).value
  }

  /** The entity a header and its body denote. */
  function EntityOf(header: Pair, body: seq<Pair>): Entity
    requires IsHeader(header.name)
  {
    if header.name == "directory" then DirectoryInfo(header.value)
    else if header.name == "playlist" then PlaylistInfo(header.value)
    else
      var isFile := header.name == "file";
      SongInfo(Song(if isFile then Some(header.value) else None,
                    TagsOf(TAG_KEYS, body),
                    FirstNumber(body, "Time"),
                    OrFirst(if isFile then NO_NUMBER else Atoi(header.value), body, "Pos"),
                    FirstNumber(body, "Id")))
  }

  function Group(pairs: seq<Pair>): seq<Entity>
    requires pairs != [] ==> IsHeader(pairs[0].name)
    decreases |pairs|
  {
    if pairs == [] then [] else [EntityOf(pairs[0], Body(pairs[1..]))] + Group(Rest(pairs[1..]))
  }

  // ---------- the loop computes the grouping ----------

  function AbsorbAll(e: Entity, body: seq<Pair>): Entity
    decreases |body|
  {
    if body == [] then e else AbsorbAll(Absorb(e, body[0]), body[1..])
  }

  /** A song with some fields set, completed from `body`. */
  function Complete(s: Song, body: seq<Pair>): Song {
    Song(s.file, TagsOf(TAG_KEYS, body) + s.tags,
         OrFirst(s.time, body, "Time"), OrFirst(s.pos, body, "Pos"), OrFirst(s.id, body, "Id"))
  }

  lemma ConsLooksAhead(p: Pair, rest: seq<Pair>, key: string)
    ensures FirstValue([p] + rest, key) ==
            if p.name == key && p.value != "" then Some(p.value) else FirstValue(rest, key)
    ensures FirstNumber([p] + rest, key) ==
            if p.name == key && p.value != "" && Atoi(p.value) != NO_NUMBER then Atoi(p.value)
            else FirstNumber(rest, key)
  {
    assert ([p] + rest)[1..] == rest;
  }

  function AbsorbKey(keys: set<string>, tags: map<string, string>, p: Pair): map<string, string> {
    if p.value != "" && p.name in keys && p.name !in tags then tags[p.name := p.value] else tags
  }

  lemma AbsorbedTags(keys: set<string>, tags: map<string, string>, p: Pair, rest: seq<Pair>)
    ensures TagsOf(keys, rest) + AbsorbKey(keys, tags, p) == TagsOf(keys, [p] + rest) + tags
  {
    forall k | k in keys
      ensures FirstValue([p] + rest, k) == if p.name == k && p.value != "" then Some(p.value) else FirstValue(rest, k)
    {
      ConsLooksAhead(p, rest, k);
    }
  }

  lemma AbsorbThenComplete(s: Song, p: Pair, rest: seq<Pair>)
    ensures Complete(AbsorbTag(s, p), rest) == Complete(s, [p] + rest)
  {
    AbsorbedTags(TAG_KEYS, s.tags, p, rest);
    assert AbsorbTag(s, p).tags == AbsorbKey(TAG_KEYS, s.tags, p);
    ConsLooksAhead(p, rest, "Time");
    ConsLooksAhead(p, rest, "Pos");
    ConsLooksAhead(p, rest, "Id");
  }

  lemma {:induction false} AbsorbAllCompletes(s: Song, body: seq<Pair>)
    ensures AbsorbAll(SongInfo(s), body) == SongInfo(Complete(s, body))
    decreases |body|
  {
    if body == [] {
      assert TagsOf(TAG_KEYS, body) + s.tags == s.tags;
    } else {
      AbsorbAllCompletes(AbsorbTag(s, body[0]), body[1..]);
      AbsorbThenComplete(s, body[0], body[1..]);
      assert [body[0]] + body[1..] == body;
    }
  }

  lemma {:induction false} AbsorbAllIgnores(e: Entity, body: seq<Pair>)
    requires !e.SongInfo?
    ensures AbsorbAll(e, body) == e
    decreases |body|
  {
    if body != [] {
      AbsorbAllIgnores(e, body[1..]);
    }
  }

  /** The field-by-field loop gives each tag its first non-empty value. */
  lemma AbsorbAllIsEntityOf(header: Pair, body: seq<Pair>)
    requires IsHeader(header.name)
    ensures AbsorbAll(Open(header), body) == EntityOf(header, body)
  {
    var e := Open(header);
    if e.SongInfo? {
      AbsorbAllCompletes(e.song, body);
      assert TagsOf(TAG_KEYS, body) + e.song.tags == TagsOf(TAG_KEYS, body);
    } else {
      AbsorbAllIgnores(e, body);
    }
  }

  // ---------- responses as text ----------

  function LineOf(p: Pair): string {
    p.name + ": " + p.value
  }

  predicate WellFormed(p: Pair) {
    ':' !in p.name && Fits(LineOf(p)) && !IsAck(LineOf(p))
  }

  function Lines(pairs: seq<Pair>): seq<string> {
    if pairs == [] then [] else [LineOf(pairs[0])] + Lines(pairs[1..])
  }

  lemma PairParses(p: Pair, v: View)
    requires WellFormed(p)
    ensures Classify(LineOf(p), v) == v.(elem := Some(p))
  {
    var line := LineOf(p);
    var c := ColonAt(line);
    assert line[|p.name|] == ':';
    assert line[..|p.name|] == p.name;
    assert forall i | 0 <= i < |p.name| :: line[i] in p.name;
    assert forall i | 0 <= i < c :: line[i] in line[..c];
    assert c == |p.name|;
    assert line[c + 2..] == p.value;
  }

  /** A part of an answer, or a whole one: pairs and the line that ends them. */
  datatype Answer = Answer(pairs: seq<Pair>, end: string, rest: string)

  predicate WellFormedAnswer(a: Answer) {
    && (forall p | p in a.pairs :: WellFormed(p))
    && (a.end == "OK" || a.end == "list_OK")
    && (a.pairs != [] ==> IsHeader(a.pairs[0].name))
  }

  function Text(pairs: seq<Pair>, a: Answer): string {
    Join(Lines(pairs), a.end + "\n" + a.rest)
  }

  /** The connection `b` after it has read the first of `pairs`, or the end line. */
  function Front(b: View, pairs: seq<Pair>, a: Answer): View {
    if pairs == [] then Classify(a.end, b.(stream := a.rest, elem := None))
    else b.(stream := Text(pairs[1..], a), elem := Some(pairs[0]))
  }

  lemma StepToFront(b: View, pairs: seq<Pair>, a: Answer)
    requires !Blocked(b) && b.stream == Text(pairs, a)
    requires forall p | p in pairs :: WellFormed(p)
    requires Fits(a.end)
    ensures Step(b) == Front(b, pairs, a)
  {
    if pairs == [] {
      StepReads(b, a.end, a.rest);
    } else {
      assert Lines(pairs)[1..] == Lines(pairs[1..]);
      assert WellFormed(pairs[0]);
      StepReads(b, LineOf(pairs[0]), Text(pairs[1..], a));
      PairParses(pairs[0], b.(stream := Text(pairs[1..], a), elem := None));
    }
  }

  lemma StepFront(b: View, pairs: seq<Pair>, a: Answer)
    requires !Blocked(b) && pairs != []
    requires forall p | p in pairs :: WellFormed(p)
    requires Fits(a.end)
    ensures Step(Front(b, pairs, a)) == Front(b, pairs[1..], a)
  {
    var f := Front(b, pairs, a);
    StepToFront(f, pairs[1..], a);
  }

  lemma AbsorbCons(e: Entity, p: Pair, body: seq<Pair>)
    ensures AbsorbAll(e, [p] + body) == AbsorbAll(Absorb(e, p), body)
  {
    assert ([p] + body)[1..] == body;
  }

  /** The inner loop reads one body and leaves the next header as lookahead. */
  lemma {:induction false} ReadBodyReads(b: View, e: Entity, pairs: seq<Pair>, a: Answer)
    requires !Blocked(b) && (a.end == "OK" || a.end == "list_OK")
    requires forall p | p in pairs :: WellFormed(p)
    ensures ReadBody(Front(b, pairs, a), e) == (Some(AbsorbAll(e, Body(pairs))), Front(b, Rest(pairs), a))
    decreases |pairs|
  {
    if pairs != [] && !IsHeader(pairs[0].name) {
      AbsorbCons(e, pairs[0], Body(pairs[1..]));
      BodyStep(b, e, pairs, a);
      ReadBodyReads(b, Absorb(e, pairs[0]), pairs[1..], a);
    }
  }

  lemma BodyStep(b: View, e: Entity, pairs: seq<Pair>, a: Answer)
    requires !Blocked(b) && Fits(a.end) && pairs != [] && !IsHeader(pairs[0].name)
    requires forall p | p in pairs :: WellFormed(p)
    ensures ReadBody(Front(b, pairs, a), e) == ReadBody(Front(b, pairs[1..], a), Absorb(e, pairs[0]))
  {
    StepFront(b, pairs, a);
  }

  /** The end line fits the number of list_OKs that `b` waits for. */
  predicate Closing(b: View, a: Answer) {
    || (a.end == "OK" && b.listOks == 0)
    || (a.end == "list_OK" && b.listOks > 1)
    || (a.end == "list_OK" && b.listOks == 1 && "OK\n" <= a.rest)
  }

  /** The last part of an OK list is not seen to be finished until its OK has been read. */
  predicate LastPart(b: View, a: Answer) {
    a.end == "list_OK" && b.listOks == 1
  }

  /** What reading until NULL leaves: all behind the answer, and behind the OK of a list. */
  function Behind(b: View, a: Answer): string
    requires Closing(b, a)
  {
    if LastPart(b, a) then a.rest[3..] else a.rest
  }

  lemma NothingLeft(b: View, a: Answer)
    requires !Blocked(b) && Closing(b, a)
    ensures var (es, u) := Entities(Front(b, [], a));
            es == [] && Blocked(u) && u.error == b.error && u.tail == b.tail && u.stream == Behind(b, a)
  {
    var f := Front(b, [], a);
    if LastPart(b, a) {
      var more := a.rest[3..];
      assert f.stream == "OK" + "\n" + more;
      StepReads(f, "OK", more);
    }
  }

  /** One call returns the first group and leaves the next header as lookahead. */
  lemma InfoEntityFromFront(b: View, pairs: seq<Pair>, a: Answer)
    requires !Blocked(b) && (a.end == "OK" || a.end == "list_OK")
    requires pairs != [] && IsHeader(pairs[0].name)
    requires forall p | p in pairs :: WellFormed(p)
    ensures InfoEntity(Front(b, pairs, a))
         == (Some(EntityOf(pairs[0], Body(pairs[1..]))), Front(b, Rest(pairs[1..]), a))
  {
    StepFront(b, pairs, a);
    ReadBodyReads(b, Open(pairs[0]), pairs[1..], a);
    AbsorbAllIsEntityOf(pairs[0], Body(pairs[1..]));
  }

  lemma {:induction false} EntitiesFromFront(b: View, pairs: seq<Pair>, a: Answer)
    requires !Blocked(b) && Closing(b, a)
    requires forall p | p in pairs :: WellFormed(p)
    requires pairs != [] ==> IsHeader(pairs[0].name)
    ensures var (es, u) := Entities(Front(b, pairs, a));
            && es == Group(pairs) && Blocked(u) && u.error == b.error && u.tail == b.tail
            && u.stream == Behind(b, a)
    decreases |pairs|
  {
    if pairs == [] {
      NothingLeft(b, a);
    } else {
      InfoEntityFromFront(b, pairs, a);
      EntitiesFromFront(b, Rest(pairs[1..]), a);
    }
  }

  /**
   Asking for entities until NULL on a well-formed answer yields the grouping of
   its pairs: the lookahead neither loses nor repeats one, no error appears, and
   nothing behind the answer is read, but for the OK of a list whose last part holds
   any pair.
   */
  lemma EntitiesAreTheGroups(v: View, a: Answer)
    requires !Blocked(v) && v.elem == None && v.stream == Text(a.pairs, a)
    requires WellFormedAnswer(a) && Closing(v, a)
    ensures var (es, u) := Entities(v); var unread := LastPart(v, a) && a.pairs == [];
            && es == Group(a.pairs) && u.error == v.error && u.tail == v.tail
            && u.stream == (if unread then a.rest else Behind(v, a)) && (Blocked(u) <==> !unread)
  {
    StepToFront(v, a.pairs, a);
    if a.pairs == [] {
      NothingAtAll(v, Front(v, [], a));
    } else {
      SameEntities(v, Front(v, a.pairs, a));
      EntitiesFromFront(v, a.pairs, a);
    }
  }

  lemma NothingAtAll(v: View, f: View)
    requires !Blocked(v) && v.elem == None && Step(v) == f && f.elem == None
    ensures Entities(v) == ([], f)
  {
  }

  /** A first pair that is already in sight makes no difference. */
  lemma SameEntities(v: View, f: View)
    requires !Blocked(v) && v.elem == None && Step(v) == f && f.elem.Some? && !Blocked(f)
    ensures Entities(v) == Entities(f)
  {
    assert InfoEntity(v) == InfoEntity(f);
  }

  // ---------- the grouping neither loses nor repeats a pair ----------

  /** The headers with their bodies. */
  function Spans(pairs: seq<Pair>): seq<seq<Pair>>
    requires pairs != [] ==> IsHeader(pairs[0].name)
    decreases |pairs|
  {
    if pairs == [] then [] else [[pairs[0]] + Body(pairs[1..])] + Spans(Rest(pairs[1..]))
  }

  function Concat(spans: seq<seq<Pair>>): seq<Pair> {
    if spans == [] then [] else spans[0] + Concat(spans[1..])
  }

  lemma {:induction false} BodyThenRest(pairs: seq<Pair>)
    ensures Body(pairs) + Rest(pairs) == pairs
    ensures forall i | 0 <= i < |Body(pairs)| :: !IsHeader(Body(pairs)[i].name)
  {
    if pairs != [] && !IsHeader(pairs[0].name) {
      BodyThenRest(pairs[1..]);
      Associative([pairs[0]], Body(pairs[1..]), Rest(pairs[1..]));
      assert [pairs[0]] + pairs[1..] == pairs;
    }
  }

  lemma ConcatCons(first: seq<Pair>, spans: seq<seq<Pair>>)
    ensures Concat([first] + spans) == first + Concat(spans)
  {
    assert ([first] + spans)[1..] == spans;
  }

  /** The list is cut in front of its headers and nowhere else; no pair is lost or repeated. */
  lemma {:induction false} SpansRebuildTheList(pairs: seq<Pair>)
    requires pairs != [] ==> IsHeader(pairs[0].name)
    ensures Concat(Spans(pairs)) == pairs && |Spans(pairs)| == |Group(pairs)|
    decreases |pairs|
  {
    if pairs != [] {
      var body, rest := Body(pairs[1..]), Rest(pairs[1..]);
      SpansRebuildTheList(rest);
      ConcatCons([pairs[0]] + body, Spans(rest));
      BodyThenRest(pairs[1..]);
      Associative([pairs[0]], body, rest);
      assert [pairs[0]] + pairs[1..] == pairs;
    }
  }

  /** A header followed by pairs that are none, and the entity it becomes. */
  predicate Makes(span: seq<Pair>, e: Entity) {
    && span != [] && IsHeader(span[0].name) && e == EntityOf(span[0], span[1..])
    && forall i | 1 <= i < |span| :: !IsHeader(span[i].name)
  }

  lemma {:induction false} SpansMakeTheGroups(pairs: seq<Pair>)
    requires pairs != [] ==> IsHeader(pairs[0].name)
    ensures |Spans(pairs)| == |Group(pairs)|
    ensures forall i | 0 <= i < |Group(pairs)| :: Makes(Spans(pairs)[i], Group(pairs)[i])
    decreases |pairs|
  {
    if pairs != [] {
      var body := Body(pairs[1..]);
      BodyThenRest(pairs[1..]);
      FirstMakes(pairs[0], body);
      SpansMakeTheGroups(Rest(pairs[1..]));
    }
  }

  lemma FirstMakes(header: Pair, body: seq<Pair>)
    requires IsHeader(header.name) && forall i | 0 <= i < |body| :: !IsHeader(body[i].name)
    ensures Makes([header] + body, EntityOf(header, body))
  {
    assert ([header] + body)[1..] == body;
  }
}
