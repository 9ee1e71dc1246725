# Tiny Applications: a verified model

The repository is a collection of small command line tools.  This project models
the eight of them that hold a protocol engine, an interpreter, a codec, a
scheduler or an in-place algorithm, and proves what they are for.

* `MpdWire`, `MpdProtocol`, `MpdEntities`, `MpdOutputs`, `MpdConnection`, `MpdCommands`,
  `MpdExchanges`, `MpdAnnounced`: the MPD client library.  A connection object reassembles lines from arbitrary
  `recv` chunks in a 50000 byte buffer, classifies them, and keeps the flags of
  single commands and command lists.  The class `Connection` has the fields of the
  C structure; each method is proved equal to a function on a *view* of the
  connection (`MpdWire.View`: the bytes still to be read, whether already received
  or not, what the network does afterwards, and the flags).  The theorems about
  protocol runs are lemmas about these functions.  `MpdExchanges` and `MpdAnnounced` state
  exchanges and answers in the literal words, keys and numbers of the protocol.
* `ShowFormat`, `ShowTags`, `ShowSkipping`, `ShowGroups`, `ShowDefault`: the format language of
  mpd-show.  The pointer-and-offset interpreter is proved to refine a recursive one
  that returns text.  That one takes the skip as a parameter, `AsCoded` or `ByDepth`,
  so what the program prints is compared with what it would print if skipping
  alternatives counted brackets: for skips, for groups of tags and for the default
  format.
* `ShowPainter`: the line painter of mpd-show, whose wrapping counter is proved to
  highlight the right cells.
* `GenpassEncode`, `GenpassChars`: the streaming radix encoder of genpass.pl, with
  a decoder that shows it is injective, and the alphabets it is used with.
* `RandFiles`: weighted selection without replacement under a size budget.
* `ForeachArgs`, `ForeachPool`: the in-place compaction of `argv`, and the bounded
  job pool against an operating system that decides everything it may decide.
* `Cutcom`: the table-driven comment stripper.
* `InstallKernel`: the rotation of `~` backups.
* `Tpwd`: the in-place prefix shortener.

`Common` and `Arithmetic` hold shared datatypes and facts about division.

The network, the operating system and the random source are scripts, traces or
functions that the theorems quantify over.  Where the code does something that a
reader of its documentation would not expect, the model follows the code:

* `select(...) == 1` is assigned to `err` as a whole (libmpdclient.c:540), so an
  interrupted `select` is a timeout, not a retry.
* An ACK does not reset `listOks` (libmpdclient.c:597-618).  The accounting of command
  lists is proved for answers without ACK; `MpdProtocol.AckedListLeavesDebt` says what
  an ACK leaves owed, `MpdProtocol.NextCommandPaysDebt` when the next command is blamed
  for it, and `MpdProtocol.FinishIsCleanIff` is exact for all answers.
* `mpd_getNextOutput` returns an output that no server announced whenever what it
  reads first is not a pair: the end of an answer, but also a refusal, a malformed
  line or a failure of the network, because `error` is checked before the first read
  and after later ones, not after the first (libmpdclient.c:1657-1683).
  `MpdOutputs.BlankIff` is exact for every stream; `MpdOutputs.OutputsAreTheGroups`
  and `MpdOutputs.BrokenAnswerLosesLast` say what a whole answer comes to, for
  answers that end well and for answers that are broken off.
* A newline inside an argument is not escaped, so a search request is one protocol
  line exactly when no name holds one (`MpdCommands.RequestIsOneLine`).
* `skipBraces` stops at the first `]`, whatever brackets are open (mpd-show.c:667);
  `ShowSkipping.SkipLands` says exactly when a skip ends where it should.
* An alternative that is skipped takes the closing bracket of its group with it, so
  what follows the group is read as if it still belonged to it (mpd-show.c:691-702).
  For alternatives and conjunctions of tags and quoted text, without groups inside
  them, `ShowGroups.FirstAlternativeWins` and `ShowGroups.AllOrNothing` say exactly
  when that matters; `ShowDefault.DefaultFormatIsRightIff` says for which songs the
  nested default format fails.  For formats in general `ShowSkipping.EvalAgrees` gives
  a condition that suffices and is not necessary.
* `calculateHilightPos` does not clamp, so a line can be wider than the terminal
  (`ShowPainter.Painter.FitsIff`, `ShowPainter.HilightIsWithinIff`).
* A dash at the end of a genpass specification is ignored; the alphabet ascends in
  the order of the decimal texts of the codes, because that is what `sort` compares.
* foreach can never report that no command was given: the marker has been added
  to an empty command before it looks (foreach.c:203-207).  A failed fork leaves its
  exit code at zero (foreach.c:278-280); `ForeachPool.CleanIff` says what zero means.
* In cutcom an even number of stars in front of a slash does not close a comment
  (`Cutcom.CommentEndsIffOdd`), a line comment ends at every newline
  (`Cutcom.LineCommentEndsIff`), and a quote right behind a slash opens no string
  (`Cutcom.QuoteBehindSlash`).
* tpwd cuts the list of directories up in the environment, so a `TPWD_DIRS` inside
  the list sees only the first name (`Tpwd.Lookup`), and what is printed for it does
  not lead back to the path outside (`Tpwd.ExpandingOutside`).

## Model

| member | source | states |
|---|---|---|
| MpdWire.NewlineAt | libmpdclient.c:517-518 | where the next line ends: no newline before it, and a newline at it unless it is the end |
| MpdWire.NewlineAtUnique | libmpdclient.c:517-518 | there is only one such place, so any search that finds one finds the same line |
| MpdProtocol.ReadsLine | libmpdclient.c:517-571 | a line that fits the buffer is read whole, and the bytes behind its newline are left |
| MpdProtocol.DrainReadsAllLines | libmpdclient.c:516-571 | successive reads yield exactly the newline-separated lines of the stream, in order; then overrun, closed or timeout as the rest decides, overrun exactly when 50000 pending bytes hold no newline |
| MpdProtocol.EveryStreamSplits | libmpdclient.c:516-571 | every byte stream is lines that fit and an unfinished rest, so the previous statement leaves no stream out |
| MpdProtocol.ChunkingIsInvisible | libmpdclient.c:540-558 | any cutting of a stream into chunks and EAGAINs, in front of any continuation, gives the reader the same bytes |
| MpdProtocol.StepKeepsCoherent | libmpdclient.c:505-635 | reading an element keeps `listOks` non-negative, and `doneListOk` and the lookahead imply an unfinished command |
| MpdProtocol.StepShrinks | libmpdclient.c:505-635 | every read that is allowed ends the command or takes at least one byte off the stream |
| MpdProtocol.StepReads | libmpdclient.c:569-635 | on a complete line a read is exactly the classification of that line |
| MpdProtocol.FinishKeepsCoherent | libmpdclient.c:637-642 | finishing always ends, with the command done, no part of a list open and no lookahead |
| MpdProtocol.FinishLine | libmpdclient.c:637-642 | one turn of the loop takes one line; it stops exactly at `OK` or an ACK |
| MpdProtocol.FinishStopsBehindResponse | libmpdclient.c:637-642 | after a complete response the unread bytes are exactly those behind its first `OK` or ACK line, so the next command starts in sync |
| MpdProtocol.ResponseOf | libmpdclient.c:637-642 | if finishing reports no transport error, the stream did start with a complete response |
| MpdProtocol.FinishIsSyncedOrReportsTransport | libmpdclient.c:516-567 | finishing is free of transport errors if and only if the stream starts with a complete response |
| MpdProtocol.ExecuteAllCounts | libmpdclient.c:486-489 | each command sent in an OK list adds one to `listOks` and changes nothing else |
| MpdProtocol.OkListSent | libmpdclient.c:1623-1642 | after an OK list of n commands exactly n `list_OK`s are waited for, without error |
| MpdProtocol.StepKeepsSync | libmpdclient.c:573-595 | while an ACK-free answer is read, `listOks` always equals the `list_OK`s still owed, and no error appears |
| MpdProtocol.FinishListOkAccounts | libmpdclient.c:644-650 | finishing a part keeps the number of parts not yet left, and stands at an end of a part or at the last one |
| MpdProtocol.ApplyKeepsAt | libmpdclient.c:652-657 | each reader call keeps, and each mpd_nextListOkCommand lowers by one, the number of parts not yet left |
| MpdProtocol.PartsRun | libmpdclient.c:644-657 | over every interleaving of reads and part changes on an answer of m parts, mpd_nextListOkCommand returns 0 exactly m-1 times and -1 ever after, and `listOks` stays in step with the server |
| MpdProtocol.FinishIsClean | libmpdclient.c:573-595 | finishing an ACK-free answer leaves all flags clean and no error |
| MpdProtocol.ErrorsStick | libmpdclient.c:573-642 | no later line of a response takes an error back |
| MpdProtocol.FinishIsCleanIff | libmpdclient.c:573-642 | a command ends without error if and only if its answer is complete, without ACK or malformed pair, and holds as many `list_OK`s as were waited for |
| MpdProtocol.OkListExchange | libmpdclient.c:1623-1642 | the whole exchange: n commands sent, the answer used in any way, finish; clean flags and n-1 zeros |
| MpdProtocol.StepKeepsDebt | libmpdclient.c:584-618 | no line of an answer that ends in an ACK changes how many list_OKs will be missing, or what stands behind the ACK |
| MpdProtocol.RunKeepsDebt | libmpdclient.c:597-657 | nor does any interleaving of reads and part changes |
| MpdProtocol.AckedListLeavesDebt | libmpdclient.c:597-618 | a list of n commands whose answer an ACK ends after j list_OKs, used in any way and finished: the error is the ACK, the reader stands behind it, and `listOks` is n - j, or 0 if j exceeds n |
| MpdProtocol.OkClearsDebt | libmpdclient.c:573-582 | an answer that ends in `OK` leaves nothing owed |
| MpdProtocol.DebtAfterAckIsReported | libmpdclient.c:573-582 | a command sent with any debt and given any well-formed answer of its own ends without error if and only if nothing was owed; nothing is owed afterwards |
| MpdProtocol.NextCommandPaysDebt | libmpdclient.c:573-618 | the command after a list of n cut short by an ACK behind j list_OKs is blamed for the list if and only if j is less than n |
| MpdExchanges.RefusalEnds | libmpdclient.c:597-618 | a line that starts with `ACK`, whatever follows, ends the command with error 18; the reader stands right behind it and `listOks` is kept |
| MpdExchanges.OtherLinesGoOn | libmpdclient.c:573-635 | a line that does not start with `ACK` never ends in a refusal, and it ends the command if and only if it is `OK` |
| MpdExchanges.RefusedIff | libmpdclient.c:573-642 | of the first line that is `OK` or starts with `ACK`: the command ends there, and with error 18 if and only if that line is not `OK` |
| MpdExchanges.StepFails | libmpdclient.c:516-567 | for every stream and network: error 19 if and only if 50000 bytes hold no newline, else 17 if and only if none has come and the connection is closed next, 10 if and only if nothing else comes; then the command is done |
| MpdExchanges.PlainCommand | libmpdclient.c:438-490 | a command outside lists is refused with error 1 while an answer is pending, and otherwise sent, or fails with 16 or 10 |
| MpdExchanges.ListModes | libmpdclient.c:1613-1632 | a begin enters its own list mode whether it goes out or not, and only an OK list resets `listOks` |
| MpdExchanges.ListModesExclude | libmpdclient.c:1613-1642 | inside a list both begins are refused, and outside one the end is |
| MpdExchanges.PlainListSent | libmpdclient.c:1613-1642 | a plain list of n commands leaves nothing but one answer to wait for: `listOks` stays as it was, without error |
| MpdExchanges.PlainListExchange | libmpdclient.c:1613-1642 | the whole exchange of a plain list: n commands sent, the answer used in any way and finished, and what that leaves |
| MpdExchanges.SentIff | libmpdclient.c:459-484 | over a socket that neither breaks nor is stuck, a command is sent if and only if what the socket accepts covers it, and as much of it goes out as is accepted |
| MpdExchanges.SendingFails | libmpdclient.c:459-484 | behind a part of the command, a broken socket means failed and a stuck one timed out, with exactly that part on the wire |
| MpdEntities.PairParses | libmpdclient.c:620-628 | a line made of a key and a value is read back as that pair |
| MpdEntities.AbsorbAllIsEntityOf | libmpdclient.c:1129-1203 | the loop over the pairs of one entity gives each string tag its first non-empty value and each number its first value that is not the one for "none" |
| MpdEntities.ReadBodyReads | libmpdclient.c:1129-1203 | the loop takes exactly the pairs before the next header and leaves that header as lookahead |
| MpdEntities.InfoEntityFromFront | libmpdclient.c:1081-1206 | one call returns the entity of the first group and stands in front of the next |
| MpdEntities.EntitiesAreTheGroups | libmpdclient.c:1081-1206 | calling until NULL on a well-formed answer, alone or as a part of a list, yields the grouping of its pairs, without error; nothing behind it is read, except that a last part with any pair takes the closing `OK` too |
| MpdEntities.SpansRebuildTheList | libmpdclient.c:1130-1136 | the groups joined together are the pair list: nothing lost, nothing repeated |
| MpdEntities.SpansMakeTheGroups | libmpdclient.c:1130-1136 | each group starts with a header and holds no other, and its entity is the one it denotes |
| MpdAnnounced.AnnouncedEntitiesComeBack | libmpdclient.c:1081-1206 | round trip: any list of files, songs with cpos, directories and playlists, announced under their literal keys, is grouped into itself |
| MpdAnnounced.AnnouncedEntitiesAreRead | libmpdclient.c:1081-1206 | the same through the reader: calling until NULL on the announced lines and an `OK` yields the list |
| MpdAnnounced.FirstNonEmptyWins | libmpdclient.c:1137-1196 | in front of and behind any other pairs, a tag has the first of its values that is not empty |
| MpdAnnounced.StrayPairIsAnError | libmpdclient.c:1090-1127 | an answer whose first key opens no entity is an error |
| MpdOutputs.UpdateExtends | libmpdclient.c:1668-1677 | updating the output pair by pair gives each field the last value of its key |
| MpdOutputs.ReadOutputReads | libmpdclient.c:1664-1685 | the loop stops in front of the next `outputid` once a number is known, and keeps it as lookahead |
| MpdOutputs.OutputsAreTheGroups | libmpdclient.c:1648-1688 | calling until NULL on an answer that ends well yields the grouping of its pairs, with a blank output in front if and only if there are none, and behind if and only if it was the last part of an OK list, whose closing `OK` is then read |
| MpdOutputs.PairIsSeen | libmpdclient.c:573-635 | on every stream a read brings a pair into sight if and only if the stream starts with a complete line that fits the buffer, is none of the keywords and holds a colon and a blank |
| MpdOutputs.BlankIff | libmpdclient.c:1657-1687 | for every stream: with nothing in sight, a call returns a blank output for nothing it has read if and only if the stream does not start with a pair |
| MpdOutputs.RefusalIsAnOutput | libmpdclient.c:1657-1687 | the ordinary refusal is such an input: an ACK yields one blank output together with the error |
| MpdOutputs.BrokenAnswerLosesLast | libmpdclient.c:1664-1687 | an answer that an ACK, a malformed line or the network breaks off behind any pairs yields their groups but the last, and without pairs a blank output |
| MpdOutputs.GroupsAreNumbered | libmpdclient.c:1668-1671 | every group but the last has a number of its own |
| Common.AtoiPrint | libmpdclient.c:1670 | `atoi` undoes printing, for every integer |
| MpdOutputs.AnnouncedOutputsComeBack | libmpdclient.c:1648-1688 | any list of numbered, named outputs, announced as pairs, is grouped into itself |
| MpdOutputs.LastWins | libmpdclient.c:1668-1677 | whatever stands before them and whatever other keys behind, the last `outputname`, `outputenabled` and `outputid` make up the output |
| MpdConnection.Socket.Recv | libmpdclient.c:541-545 | a receive delivers a non-empty prefix of what is to come, or EAGAIN, or the end, and touches no byte outside its room |
| MpdConnection.Socket.Send | libmpdclient.c:459-473 | a send takes a non-empty prefix, or nothing |
| MpdConnection.Connection.constructor | libmpdclient.c:348-423 | a fresh connection is consistent, in the state after the welcome line, and reads first what was received behind that line |
| MpdConnection.Connection.Strchr | libmpdclient.c:518 | the first occurrence in the NUL-terminated window, or none |
| MpdConnection.Connection.Compact | libmpdclient.c:519-527 | moving the window to the front keeps the pending bytes |
| MpdConnection.Connection.Receive | libmpdclient.c:541-557 | bytes move from the network behind the window; what is still to be read stays the same |
| MpdConnection.Connection.ReadLine | libmpdclient.c:516-571 | the waiting loop with its incremental newline search and compaction finds the line that the bytes alone determine, or fails as they determine |
| MpdConnection.Connection.TakeLine | libmpdclient.c:569-571 | cutting a line off the window is the step of the stream over that line |
| MpdConnection.Connection.HandleLine | libmpdclient.c:573-635 | the flags and the lookahead after a line are those of its classification, which `MpdExchanges.RefusalEnds` and `OtherLinesGoOn` pin to the words of the protocol, and stay coherent |
| MpdConnection.Connection.GetNextReturnElement | libmpdclient.c:492-635 | the buffered reader is the buffer-free step, whose failures `MpdExchanges.StepFails` states; buffer and flags stay valid |
| MpdConnection.Connection.FinishCommand | libmpdclient.c:637-642 | terminates on every network script and refines `Finish`, for which `MpdExchanges.RefusedIff` says when it ends in a refusal |
| MpdConnection.Connection.FinishListOkCommand | libmpdclient.c:644-650 | terminates and refines `FinishListOk` |
| MpdConnection.Connection.NextListOkCommand | libmpdclient.c:652-657 | result and effect are those of `NextListOk` |
| MpdConnection.Connection.GetNextInfoEntity | libmpdclient.c:1081-1206 | result and effect are those of `InfoEntity`, the function of the grouping theorem and of the round trip in `MpdAnnounced` |
| MpdConnection.Connection.GetBody | libmpdclient.c:1129-1205 | the loop over pairs refines `ReadBody` |
| MpdConnection.Connection.GetNextOutput | libmpdclient.c:1648-1688 | result and effect are those of `NextOutput`, the function of the grouping theorem |
| MpdConnection.Sending | libmpdclient.c:459-484 | a command counts as sent if and only if all its bytes went out |
| MpdConnection.Connection.SendAll | libmpdclient.c:454-484 | over short writes and retries, a prefix of the command goes out in order, as far as the socket takes it |
| MpdConnection.Connection.ExecuteCommand | libmpdclient.c:438-490 | flags and wire after a command, sent, cut short or refused; a refused one leaves the wire alone |
| MpdConnection.Connection.SendCommandListBegin | libmpdclient.c:1613-1621 | list mode is entered once, a second begin sends nothing, and what the mode means is `MpdExchanges.PlainListExchange` |
| MpdConnection.Connection.SendCommandListOkBegin | libmpdclient.c:1623-1632 | the same for OK lists, with nothing owed afterwards |
| MpdConnection.Connection.SendCommandListEnd | libmpdclient.c:1634-1642 | list mode is left, and the end command is sent unless another answer is still being read |
| MpdCommands.Escape | libmpdclient.c:277-285 | escaping at most doubles the length |
| MpdCommands.UnescapeEscape | libmpdclient.c:268-288 | round trip: unescaping gives every argument back |
| MpdCommands.EscapeMarks | libmpdclient.c:277-285 | nothing but quotes and backslashes is changed, and these get one backslash in front |
| MpdCommands.SanitizeArg | libmpdclient.c:268-288 | the loop writes the escaped argument and its NUL, all inside the allocation of 2 * length + 1 |
| MpdCommands.Search.StartWith | libmpdclient.c:1770-1791 | a search starts only when none is in progress; otherwise nothing changes but the error |
| MpdCommands.Search.StartSearch | libmpdclient.c:1758-1768 | the same, with the verb chosen by `exact` |
| MpdCommands.Search.StartFieldSearch | libmpdclient.c:1793-1817 | a valid type gives the request `list type`, which fits its buffer; an invalid one or a search in progress changes nothing but the error |
| MpdCommands.Search.AddConstraintSearch | libmpdclient.c:1819-1855 | the request grows by exactly one constraint, untruncated; each of the three error cases leaves it alone |
| MpdCommands.Search.CommitSearch | libmpdclient.c:1857-1875 | the request goes out as one command with a newline, as far as the socket takes it, and is forgotten |
| MpdCommands.RequestTokens | libmpdclient.c:1758-1875 | tokenising the request recovers the verb and all (type, name) pairs in order, whatever characters the names hold |
| MpdCommands.RequestIsOneLine | libmpdclient.c:1857-1875 | the command is a single protocol line if and only if no name holds a newline |
| MpdCommands.TypeNames | libmpdclient.c:251-258 | the first seven type names go out in lower case, in this order |
| MpdCommands.MoreTypeNames | libmpdclient.c:259-265 | and so do the other six |
| MpdCommands.PlainRequest | libmpdclient.c:1758-1855 | a constraint as it goes out, for names without quotes and backslashes |
| Common.DigitsLength | libmpdclient.c:61-63 | a number below 10^d prints in at most d digits |
| MpdCommands.BitsToDigits | libmpdclient.c:61-63 | 2^(b-1) is below 10^((b+1)/3) |
| MpdCommands.PrintFits | libmpdclient.c:61-63 | every signed integer of b bits, b at least 2, prints in at most (b+1)/3+1 characters |
| MpdCommands.NumberCommandsFit | libmpdclient.c:1488-1534 | commands with one or two numbers are never truncated by their buffers |
| MpdCommands.StringCommandsFit | libmpdclient.c:1328-1446 | commands with one or two quoted strings, and the list command with its differently written length, are never truncated either |
| ShowFormat.DirAndFile | mpd-show.c:748-764 | `%dir%`, a slash and `%file%` make up the path, and the file holds no slash |
| ShowFormat.WithoutExtension | mpd-show.c:751-760 | the forms without extension are cut at the first dot of the part behind the first slash |
| ShowTags.TimeReads | mpd-show.c:739-746 | `%time%` reads as minutes, a colon and seconds below 60 that make up the time again, for every 32-bit time: seconds in two digits, minutes filled with a blank only |
| ShowTags.PlainTagsPrint | mpd-show.c:726-769 | a format that is one tag: the ten tags that are copied, the path, and nothing for what the song lacks and for names that are no tags |
| ShowTags.OtherTagsPrint | mpd-show.c:738-764 | time, directory and file tags alone print the texts that the lemmas above are about |
| ShowTags.FlagPrints | mpd-show.c:727 | `%Y%` prints nothing, and yet a group of it and text is printed |
| ShowFormat.SafeIffNoLoneHash | mpd-show.c:784-789 | reading never runs past the end if and only if the format does not end in a lone `#` |
| ShowFormat.SafeAfterSkip | mpd-show.c:678-704 | skipping an alternative never lands behind a `#` |
| ShowFormat.Construct | mpd-show.c:776-836 | each construct strictly advances, stays inside the format, or ends the group |
| ShowFormat.SkipBraces | mpd-show.c:657-676 | with the test as it is written, the loop stops at the first `]` or at the end, whatever is open |
| ShowFormat.SkipFormatting | mpd-show.c:678-704 | the loop ends where a skipped alternative ends |
| ShowFormat.Display.EnsureCapacity | mpd-show.c:840-866 | the capacity suffices, at most doubles what is asked for beyond the first 32, and the contents survive |
| ShowFormat.Display.AppendW | mpd-show.c:874-879 | text lands at the offset, and what stands before it is kept |
| ShowFormat.Display.DoFormatTag | mpd-show.c:707-769 | the tag's text is appended; the returned offset tells found from not found, and the minus-one code means `%Y%` and nothing else |
| ShowFormat.Display.DoConstruct | mpd-show.c:776-836 | one turn of the loop does to buffer, offset, position and `found` what the pure construct does to text |
| ShowFormat.Display.DoFormat | mpd-show.c:772-837 | terminates; the text in front of `offset` is kept through every rollback, and the text behind it and the end position are those of the pure interpreter |
| ShowFormat.Display.FormatGroup | mpd-show.c:809-814 | a nested group contributes its text, and moves the offset if and only if that is not empty |
| ShowFormat.Display.FormatLine | mpd-show.c:645-654 | the line is the bracketed error, the note that there is no song, or what the format denotes for the song, whose tags `ShowTags` states one by one |
| ShowFormat.QuoteEval | mpd-show.c:784-789 | quoted text is copied from any place of any format, and changes nothing else |
| ShowFormat.LiteralsPrint | mpd-show.c:772-837 | round trip: a quoted text prints itself, whatever special characters it holds |
| ShowFormat.GroupNeedsATag | mpd-show.c:816-820 | a group without a tag prints nothing |
| ShowSkipping.CountsOn | mpd-show.c:657-676 | what skipBraces passes over changes the number of open brackets by a count of nested and quoted ones |
| ShowSkipping.SkipLands | mpd-show.c:657-704 | a skip ends where one that counts brackets ends if and only if it stops at `&` or `|` with no bracket left open, or behind a `]` that closes the only one in front of another stop, or at the end |
| ShowSkipping.FlatClosesOne | mpd-show.c:657-676 | skipBraces closes exactly its group if and only if no `[` is nested before the first `]` and that one is not quoted |
| ShowSkipping.FlatGroupsAreRespected | mpd-show.c:678-704 | a skip over flat groups is right, and one that stops at `&` or `|` is right only over flat groups |
| ShowSkipping.BracketIsPassed | mpd-show.c:691-693 | skipping the last alternative of a group always goes one too far, behind the bracket |
| ShowSkipping.SkipEndsInsideNested | mpd-show.c:657-704 | an input on which a skip ends inside the group it should pass |
| ShowSkipping.SkipEndsWellByChance | mpd-show.c:657-704 | an input with a nested group on which the skip ends rightly all the same |
| ShowSkipping.EvalAgrees | mpd-show.c:772-837 | a format in which all skips end well prints for every song what counting brackets would print; the condition is not necessary |
| ShowGroups.TagEval | mpd-show.c:822-827 | a tag adds its text, and is found if and only if the song has it |
| ShowGroups.ItemEval | mpd-show.c:784-833 | an item of tags and quoted text adds their texts, and is found if and only if the song has one of the tags |
| ShowGroups.RestIsSkipped | mpd-show.c:791-807 | the rest of a list that is not to be printed is passed, as coded together with its bracket |
| ShowGroups.FirstAlternativeWins | mpd-show.c:791-833 | a group of alternatives of tags and quoted text, anywhere in any format: as meant it prints the first alternative of which the song has a tag and ends at its bracket; as coded it does so if and only if nothing follows or no alternative but the last is found, and otherwise evaluation goes on behind the bracket inside the group, with its text found |
| ShowGroups.AllOrNothing | mpd-show.c:800-833 | a conjunction of parts of tags and quoted text, anywhere: as meant all or nothing; as coded if and only if all parts but perhaps the last have a tag of the song, or nothing follows and there is no text; otherwise the text so far is kept and the group goes on |
| ShowGroups.ConjunctionIsLost | mpd-show.c:791-807 | alternatives inside a conjunction: a format that prints a tag where it should print nothing |
| ShowDefault.TitleGroup | mpd-show.c:83-86 | title, numbered if possible, and where its group is left as coded |
| ShowDefault.HeaderGroup | mpd-show.c:83-86 | artist and album as far as there are any, and where their group is left as coded |
| ShowDefault.HeaderMissing | mpd-show.c:800-803 | without artist and album the skip lands inside the nested title group and prints the bare title |
| ShowDefault.DefaultFormatPrints | mpd-show.c:83-86 | for all tags: what the default format prints, as coded and as meant |
| ShowDefault.DefaultFormatIsRightIff | mpd-show.c:83-86 | the default format prints what it means for a song if and only if the song has an artist or an album, or lacks track or title |
| ShowDefault.TrackIsLost | mpd-show.c:83-86 | a song for which it prints `T` where `1. T` is meant |
| ShowPainter.PaintedAppends | mpd-show.c:615-628 | text on one side of the end of the highlight continues a correctly painted line in one colour |
| ShowPainter.Painter.Outs | mpd-show.c:615-628 | after any sequence of calls, cell i is highlighted if and only if i < hilightPos, even while the counter is wrapped below zero |
| ShowPainter.WindowPieces | mpd-show.c:573-607 | end of the line, separator and beginning of the line, cut as the code cuts them, are the window of the endless line |
| ShowPainter.Painter.OutputLineEnd | mpd-show.c:580-588 | the first piece and the columns it leaves |
| ShowPainter.Painter.OutputGap | mpd-show.c:590-602 | the separator, less what has scrolled out of sight |
| ShowPainter.Painter.OutputStart | mpd-show.c:604-607 | the rest of the columns but one |
| ShowPainter.Painter.OutputPieces | mpd-show.c:580-607 | the three steps print the three pieces one behind the other |
| ShowPainter.Painter.OutputScrolled | mpd-show.c:573-610 | prints exactly columns-1 characters, the cyclic window at `scroll`, and keeps `scroll` below the period |
| ShowPainter.EndlessRepeats | mpd-show.c:609 | the endless line is the line and ` * * * `, indexed modulo their length |
| ShowPainter.RotatesByOne | mpd-show.c:609 | the next call shows the same window moved by one cell |
| ShowPainter.ScrollAfterIs | mpd-show.c:609 | k calls on an unchanged line move `scroll` by k modulo the period |
| ShowPainter.ScrollPeriod | mpd-show.c:609 | `scroll` returns to where it was if and only if the number of calls is a multiple of line length + 7 |
| ShowPainter.Painter.OutputState | mpd-show.c:528-556 | colour and counter start right, and the columns left are as the narrow cases demand |
| ShowPainter.Painter.Pad | mpd-show.c:564-567 | blanks carry the highlight to its end if that lies within the columns |
| ShowPainter.HilightIsWithinIff | mpd-show.c:511-517 | without overflow, the highlight h has h * len <= pos * columns < (h + 1) * len; it is within the columns if and only if pos * columns is below (columns + 1) * len, in particular while the song is not longer than it says |
| ShowPainter.Painter.CalculateHilightPos | mpd-show.c:511-517 | the highlight follows the time unless there is an error, in unsigned arithmetic |
| ShowPainter.Painter.FitsIff | mpd-show.c:564-567 | text and padding fit the columns if and only if the highlight does, or is not carried on by blanks |
| ShowPainter.Painter.LineTooWide | mpd-show.c:511-567 | a line of 88 cells on a terminal of 80, when the song runs longer than it says |
| ShowPainter.Painter.Output | mpd-show.c:528-570 | the whole line: state, text or window, padding; cell i highlighted if and only if i < hilightPos, never on an error; and exactly when the line is not wider than the terminal |
| GenpassEncode.LeftFits | genpass.pl:270-274 | `val` never exceeds `ent` |
| GenpassEncode.DigitsInRange | genpass.pl:267-278 | every index into the alphabet is in range, the last one included |
| GenpassEncode.CountOfEmitted | genpass.pl:270-274 | how many digits a byte gives out depends on `ent` and the alphabet size alone |
| GenpassEncode.UnemitEmitted | genpass.pl:270-274 | the digits given out and what is left determine the value |
| GenpassEncode.DecodeDigits | genpass.pl:267-278 | an explicit reverse decoder recovers every byte |
| GenpassEncode.DigitsLength | genpass.pl:267-278 | the number of digits depends on the number of bytes and the alphabet size alone |
| GenpassEncode.EncodingIsInjective | genpass.pl:264-280 | for distinct characters, byte strings of one length never share a password |
| GenpassEncode.EncodingLength | genpass.pl:264-280 | all byte strings of one length give passwords of one length |
| GenpassEncode.GiveOut | genpass.pl:270-274 | the inner loop gives out exactly the decided digits and keeps `val <= ent` |
| GenpassEncode.EncodeByte | genpass.pl:267-275 | one byte moves the loop on without changing what the whole text will be |
| GenpassEncode.Encode | genpass.pl:264-280 | the loop computes the encoding that is proved injective |
| GenpassChars.TakeCharacter | genpass.pl:166-183 | the `prev`/`range` machine keeps in step with the specification read as single characters and ranges, and fails exactly when a range does not go upwards |
| GenpassChars.Collect | genpass.pl:165-183 | the characters collected are those the specification names |
| GenpassChars.Sort | genpass.pl:186 | the sorted list ascends in the order of decimal texts and has the same members |
| GenpassChars.NotBefore | genpass.pl:187 | in that order, a value that differs from its neighbour has not occurred before |
| GenpassChars.DropRepeats | genpass.pl:184-191 | the second loop leaves distinct characters, all of them, in order |
| GenpassChars.BuildChars | genpass.pl:164-198 | the alphabet is exactly the set the specification names, distinct, of at least two; it is refused if and only if a range is wrong or fewer than two characters are named |
| GenpassChars.SpecReads | genpass.pl:165-183 | characters and ranges written one behind the other are read as what they name; a dash at the end is ignored, a range that does not go upwards is an error |
| GenpassChars.EverySpecSplits | genpass.pl:165-183 | every specification is written in that way, so the previous statement leaves none out |
| GenpassChars.OrderOfEquals | genpass.pl:186 | numbers with equally many digits are sorted by their values |
| GenpassChars.OrderOfLonger | genpass.pl:186 | a number with more digits is compared without its last ones |
| GenpassChars.OrderOfCodes | genpass.pl:186 | for character codes from 10 on: 100 to 109 come right behind 10, and so on |
| RandFiles.ReadEntries | rand-files.pl:108-120 | the files kept are the eligible ones, those of `RandFiles.EligibleOne`, and `ranks_sum` is the sum of their ranks |
| RandFiles.EligibleOne | rand-files.pl:108-120 | an input line is kept if and only if its file is regular, has a positive rank, and is between 1 byte and the limit in bytes, both included |
| RandFiles.SelectableTakesPart | rand-files.pl:108-120 | every such file takes part |
| RandFiles.PartTakersQualify | rand-files.pl:108-120 | no other does |
| RandFiles.SortKeeps | rand-files.pl:121 | sorting keeps the files, as a multiset, and the sum of their ranks |
| RandFiles.PickIndex | rand-files.pl:128-131 | a draw below the sum of the ranks always selects a file, the one whose share it falls into |
| RandFiles.SharesAreDisjoint | rand-files.pl:128-131 | the shares, each as long as its rank, do not overlap: selection is exactly proportional to rank |
| RandFiles.CleanedUp | rand-files.pl:138-149 | after a round the list is sorted, all of it fits, its rank sum is what the code has subtracted down to, and only the chosen file and files too big are gone |
| RandFiles.Packer.constructor | rand-files.pl:104-124 | the main loop starts with its invariant: sorted, fitting, rank sum exact |
| RandFiles.Packer.Trim | rand-files.pl:138-141 | exactly the files too big for what is left are cut off, ranks accounted for |
| RandFiles.Packer.Cut | rand-files.pl:143-149 | the chosen file is removed if it is still there, and only then its rank |
| RandFiles.Packer.Clean | rand-files.pl:137-149 | sum, order and fit hold again whether or not the chosen file was itself cut off; the list shrinks |
| RandFiles.Packer.PlayRound | rand-files.pl:127-149 | one round adds the drawn file to the pool, keeps the invariant and shortens the list |
| RandFiles.Packer.ChoosePool | rand-files.pl:124-150 | the pool takes each input entry at most once, stays within the budget, is maximal, and its k-th file was selected by the k-th draw from what was left then; the loop ends |
| RandFiles.BlocksCoverBytes | rand-files.pl:112 | bytes never exceed 4096 times the blocks |
| RandFiles.PoolFitsInMegabytes | rand-files.pl:104-150 | a pool within the block budget has at most the given number of MiB in bytes |
| RandFiles.PoolIsMaximal | rand-files.pl:104-150 | a finished pool holds only files that qualify, and every qualifying file outside it exceeds, in bytes, what its blocks leave of the limit |
| ForeachArgs.CopyTurn | foreach.c:131-142 | one turn copies a cell into one already read, or ends the list |
| ForeachArgs.CopyArguments | foreach.c:130-142 | the loop stores the list in place without touching an unread cell or anything before it |
| ForeachArgs.AddMarker | foreach.c:144-147 | the marker fits between the list and the unread cells |
| ForeachArgs.TakeArguments | foreach.c:121-151 | the list is stored and NULL-terminated, the marker appended if and only if it was asked for and absent, all unread cells intact |
| ForeachArgs.CommandStored | foreach.c:202-207 | the first list is the command template, and the values stand unread behind it |
| ForeachArgs.FirstListEnds | foreach.c:130-142 | in an array that ends at its NULL the first list ends there if and only if there is no separator |
| ForeachArgs.TakeFirst | foreach.c:203 | the first pass leaves a cell to read if and only if there is a separator |
| ForeachArgs.ParseTail | foreach.c:200-216 | both passes over one array yield the split of the original arguments at the separator; the result is 1 if and only if there are no values |
| ForeachArgs.ArgumentsSplit | foreach.c:121-151 | `command -- values` is split there; one more `--` in front of either list is skipped |
| ForeachArgs.NoSeparator | foreach.c:203 | without a `--` behind the command there are no values |
| ForeachArgs.Substitute | foreach.c:235-241 | the child's command has the value at every marker and is otherwise as given |
| ForeachArgs.ChildRuns | foreach.c:235-241 | what the child runs: the command with its value for each `{+}`, or behind it if there is none, and a NULL |
| ForeachPool.ExitCodeExtends | foreach.c:257-267 | the exit code is the OR over the outcomes of the children, and zero if and only if no child failed |
| ForeachPool.System.Fork | foreach.c:228-232 | a fork may fail; a started child is new and alive |
| ForeachPool.System.Wait | foreach.c:254-256 | a blocking wait succeeds if and only if a child exists; any live child may be the one |
| ForeachPool.Reap | foreach.c:252-269 | at most one child is reaped, and `rc` stays the code of the trace |
| ForeachPool.RunOne | foreach.c:277-288 | one value is tried, children are reaped until there is room, and the bound holds throughout |
| ForeachPool.MakeRoom | foreach.c:285-287 | children are reaped until none has ended, and one is waited for only while the bound is reached |
| ForeachPool.Drain | foreach.c:294-297 | in the end every child that runs is waited for, and nothing else happens |
| ForeachPool.RunCommands | foreach.c:272-300 | in every run: never more than the bound of children, values tried as an ordered prefix and all of them with keep_going, nothing tried after a failure is reaped without it, a child waited for only while the bound is reached or after the last value tried, no child left, `rc` the code of all outcomes; every value ran cleanly if and only if `rc` is zero, no fork failed and all values were tried |
| ForeachPool.CleanIff | foreach.c:277-299 | the exact meaning of an exit code of zero at the end of a run |
| ForeachPool.EveryChildReapedOnce | foreach.c:294-297 | at the end each child started has been reaped exactly once |
| Cutcom.FindRow | cutcom.c:116-120 | searching the nine tables is the automaton, whose laws the lemmas below state byte by byte: next state and output |
| Cutcom.CutFile | cutcom.c:103-121 | the loop over one file computes the strip of the automaton: strings kept, comments cut |
| Cutcom.CutAll | cutcom.c:102-126 | each readable file is stripped on its own, from the text state; unreadable ones are passed over |
| Cutcom.FileAlone | cutcom.c:102-126 | a single file prints as it is stripped, and nothing if it cannot be opened |
| Cutcom.FilesInOrder | cutcom.c:102-126 | several files print one behind the other, in their order |
| Cutcom.StripSettles | cutcom.c:45-91 | in every state, a second pass over the rest of the output reprints it |
| Cutcom.StripTwice | cutcom.c:115-121 | stripping is idempotent on every input |
| Cutcom.CommentsShorten | cutcom.c:45-91 | the output is never longer, and shorter whenever a comment or a held slash occurs |
| Cutcom.UnchangedIff | cutcom.c:45-91 | an input comes back unchanged if and only if it enters no comment and does not end in a held slash |
| Cutcom.OutputHasNoComments | cutcom.c:45-91 | the output never holds a comment, even where cutting has brought characters together |
| Cutcom.QuotedIsKept | cutcom.c:45-70 | a string or character constant, with any escapes and whatever else it holds, is printed as it is, and stripping goes on behind it |
| Cutcom.SlashIsKept | cutcom.c:72-76 | so is a slash in front of anything but a slash or a star |
| Cutcom.LineCommentIsCut | cutcom.c:78-81 | a line comment is cut out up to its newline, which is printed |
| Cutcom.BlockCommentIsCut | cutcom.c:83-91 | a block comment that ends in an odd run of stars and a slash is cut out, and stripping goes on behind it |
| Cutcom.CommentState | cutcom.c:83-91 | inside a comment, of the stars last read only whether their number is odd is remembered |
| Cutcom.CommentEndsIffOdd | cutcom.c:83-91 | at the place where C++ ends a comment, it ends if and only if the number of stars right before the slash is odd, and goes on otherwise |
| Cutcom.StarsThenSlash | cutcom.c:83-91 | a run of k stars and a slash closes a comment from its inside if and only if k is odd, and from behind a star if and only if k is even |
| Cutcom.EvenRunStaysOpen | cutcom.c:83-91 | an input whose comment is never closed, although C++ closes it |
| Cutcom.LineCommentEndsIff | cutcom.c:78-81 | a line comment ends at its first newline, which is printed; C++ agrees if and only if no backslash stands before it |
| Cutcom.ContinuedLineIsPrinted | cutcom.c:78-81 | an input whose continued line comment is printed from the newline on |
| Cutcom.QuoteBehindSlash | cutcom.c:72-76 | a quote right behind a slash opens no string: everything after it is stripped as code |
| Cutcom.StringIsStripped | cutcom.c:72-76 | an input that loses the end of a string |
| InstallKernel.RotationShifts | installkernel:832-841 | the maximal chain b, b~, b~~ moves up by one, b becomes free, and the name behind the chain was free |
| InstallKernel.RotationFrames | installkernel:832-841 | no name outside the chain is touched |
| InstallKernel.TildeIs | installkernel:834-838 | the k-th backup has k tildes behind the name |
| InstallKernel.AllChainsShift | installkernel:830-841 | each of several independent chains moves up as if it were alone |
| InstallKernel.OthersUnchanged | installkernel:830-841 | every file outside all chains is unchanged |
| InstallKernel.KernelFilesAreIndependent | installkernel:830-831 | no backup of one of the three files is a backup of another, for any path and version |
| InstallKernel.PushBackup | installkernel:834-837 | pushing b~ in front of b changes neither the result nor the end of the loop |
| InstallKernel.FileSystem.Move | installkernel:838 | a move, with a record of what it destroys |
| InstallKernel.Rotate | installkernel:832-841 | the worklist loop ends on every file system, overwrites nothing and rotates every base |
| InstallKernel.RotateKernelFiles | installkernel:830-842 | the three chains are shifted, so that the three names are free and what they held is one tilde further; all else is unchanged, nothing is overwritten |
| Tpwd.ApplicableIsEntry | tpwd.c:239-300 | the entry chosen applies, and no entry before it does; if none is chosen, none applies |
| Tpwd.ExpandingGivesBack | tpwd.c:229-303 | expanding the leading `~` or `$VAR` with the value the program has seen gives the path back, what follows is a whole component, the result is never longer, and without an entry the path is untouched |
| Tpwd.ExpandingOutside | tpwd.c:229-303 | with the value the variable has outside the program it gives the path back if and only if the entry used is not `TPWD_DIRS` itself |
| Tpwd.ListNamesItself | tpwd.c:248-266 | inputs on which it does not: every list of a directory and `TPWD_DIRS` |
| Tpwd.HomeIsTilde | tpwd.c:229-303 | the home directory is shown as `~`, for pwd whatever directories are listed |
| Tpwd.OnlyHomeForPwd | tpwd.c:235-237 | pwd replaces nothing but the home directory |
| Tpwd.VariableIsNamed | tpwd.c:239-298 | below the directory that the first listed variable holds, the path is shown as `$`, the name and the rest, unless that would be longer |
| Tpwd.EntryAt | tpwd.c:240-266 | what the two scans delimit is the next name of the list |
| Tpwd.NextEntry | tpwd.c:240-266 | names come off the list in order while it is cut up in place |
| Tpwd.GetEnv | tpwd.c:275 | a variable is read as it stands then, the list itself already cut |
| Tpwd.StripSlashes | tpwd.c:281-283 | the value without its trailing slashes |
| Tpwd.Match | tpwd.c:276-290 | an entry applies if and only if its absolute value is a prefix that ends at a component and is no shorter than the replacement |
| Tpwd.Replace | tpwd.c:292-298 | the replacement ends exactly where the covered part ends, inside the buffer |
| Tpwd.SearchList | tpwd.c:239-300 | the loop that cuts the list finds the first entry that applies |
| Tpwd.ShortenPwd | tpwd.c:229-303 | the buffer from the returned offset on is the shortened path; if no entry applies it is untouched |
| Tpwd.Output | tpwd.c:306-323 | short paths are printed whole; truncated ones are the mark and the end of the path, exactly max_len characters when the mark's length is stated truly and is below max_len |

## Left out

- Sockets, DNS, timeouts as durations, `fork`, `exec`, signals, terminals, character set conversion: they appear only as scripts, traces and plain text.
- `mpd_parseWelcome` and the rest of connecting: a connection starts in the state after the welcome line, with any bytes received behind it.
- The texts in `errorStr` and the numbers in an ACK line: the model keeps `error` itself.
- `mpd_getStatus`, `mpd_getStats`, `mpd_getNextReturnElementNamed` and its users.
- The functions that only format one command and send it, one by one: their texts and lengths are instances of the two lemmas about command lengths.
- The `request` field lives in the class `Search`, which holds the connection, instead of in `Connection`.
- `atoi` on values that do not fit an int, and `malloc` failures.
- Response bytes that are NUL: the C code works on NUL-terminated text and the model assumes none arrive.
- Concurrent use of one connection: the library does not support it.
- `mpd_getNextInfoEntity` on an answer whose first key is no header: it is modelled, but the grouping theorem starts from a header, as the error branch leaves the pairs unread.
- ShowFormat.SafeIffNoLoneHash: formats that end in a lone `#` are excluded from the interpreter, because the original then reads behind the terminator.
- ShowFormat.Display.AppendW: it also stands for `appendUTF` on text that has been decoded; the decoders of mpd-show are not modelled, and neither are the overflow checks on the requested capacity.
- ShowFormat.Display.DoFormatTag: the value that `%Y%` returns at offset 0, the largest unsigned number, is -1 here.
- ShowPainter.Painter.Output: zero columns are excluded, and `scroll` below the period is required, because nothing in the original resets it when the song changes.
- The escape sequences of the terminal.
- The branches of genpass.pl for alphabets of 16 and 64 characters, its random sources and its fixed formats.
- Rounding of the floating-point rank sum in rand-files.pl, its ranking rules and options.  When the last round trims every file the script leaves its list in place and leaves the loop; the model empties the list.
- ForeachArgs.ParseTail: the separator `--` is required, because without it the original goes on reading behind the NULL (ForeachArgs.TakeFirst says so); options are taken as already parsed.
- ForeachPool: the message texts and which exit code or signal it was.
- Cutcom: a lexer for all of C++; the automaton is the one of the tables.  Its departures from C++ are stated for the ends of block comments, for the ends of line comments and for quotes behind a slash; others, such as line continuations elsewhere and raw strings, are not.
- InstallKernel: the dry run, in which moves do nothing and the loop would not end; directories and links under the names involved.
- Tpwd: how the path is found, and options.
- The other tools of the repository: input and output plumbing, or properties that can be read off one line.
