/** Replies that carry no rows: counts, bare acknowledgements, refusals; and what each command
    makes of its reply. */
module Answers {
  import opened Bytes
  import opened Text
  import opened Codec
  import opened Header
  import opened Stream
  import opened Replies
  import opened Protocol
  import opened Cursor
  import opened Session
  import opened Messages

  // ---------- Executing ----------

  /** A header that is read whole and accepted, as one of that kind. */
  ghost predicate Accepts(h: seq<byte>, kind: ResultType) {
    && ReadHeader(h) == Complete(|h|)
    && var p := ParseHeader(NO_INFO, HeaderText(h)); p.Accepted? && p.info.resultType == kind
  }

  /** An update answers with its count, and takes header and count off the stream. */
  lemma UpdateAnswered(h: seq<byte>, n: int, pageSize: nat, room: nat, more: seq<byte>)
    requires Accepts(h, UPDATE_COUNT) && Fits(n, 8)
    ensures var a := ReadAnswer(pageSize, room, h + (ToLe(n, 8) + more));
            && a.Answered? && a.outcome == Updated(n) && a.link.net == Net(room, more)
            && a.link.res.info == ParseHeader(NO_INFO, HeaderText(h)).info
            && a.link.res.pageSize == pageSize && a.link.res.page == []
  {
    hide ParseHeader, ReadHeader, HeaderText, CheckReply, ToLe, FromSignedLe;
    HeaderFirst(NO_INFO, h, ToLe(n, 8) + more);
    SignedRoundTrip(n, 8);
    var s := ToLe(n, 8) + more;
    assert s[..8] == ToLe(n, 8) && s[8..] == more;
  }

  /** A count cut short is a lost connection. */
  lemma UpdateLost(h: seq<byte>, part: seq<byte>, pageSize: nat, room: nat)
    requires Accepts(h, UPDATE_COUNT) && |part| < 8
    ensures ReadAnswer(pageSize, room, h + part) == Broken(-1)
  {
    hide ParseHeader, ReadHeader, HeaderText, CheckReply, FromSignedLe;
    HeaderFirst(NO_INFO, h, part);
  }

  /** A reply of another kind is its header. */
  lemma NothingMore(h: seq<byte>, pageSize: nat, room: nat, more: seq<byte>)
    requires Accepts(h, UNKNOW)
    ensures var a := ReadAnswer(pageSize, room, h + more);
            && a.Answered? && a.outcome == Done && a.link.net == Net(room, more)
            && a.link.res.info == ParseHeader(NO_INFO, HeaderText(h)).info
            && a.link.res.pageSize == pageSize && a.link.res.page == []
  {
    hide ParseHeader, ReadHeader, HeaderText, CheckReply;
    HeaderFirst(NO_INFO, h, more);
  }

  /** A refused header ends the command with the error it left. */
  lemma RefusalBreaks(h: seq<byte>, pageSize: nat, room: nat, more: seq<byte>)
    requires ReadHeader(h) == Complete(|h|) && ParseHeader(NO_INFO, HeaderText(h)).Rejected?
    ensures ReadAnswer(pageSize, room, h + more) == Broken(ParseHeader(NO_INFO, HeaderText(h)).info.errorCode)
  {
    hide ParseHeader, ReadHeader, HeaderText;
    HeaderPrefix(h, more);
    assert (h + more)[..|h|] == h;
  }

  /** A message that cannot be sent whole ends the command at once. */
  lemma Unsendable(message: seq<byte>, pageSize: nat, l: Link)
    requires |message| > l.net.room
    ensures Perform(Execute(message, pageSize), l) == Broken(-1)
  {
    hide ReadAnswer;
  }

  // ---------- The kind of a reply ----------

  function Spaces(n: nat): (s: string)
    ensures |s| == n && forall i :: 0 <= i < n ==> s[i] == ' '
  {
    seq(n, _ => ' ')
  }

  lemma {:induction false} EndStripped(s: string, n: nat)
    requires s != "" && !IsSpace(s[|s| - 1])
    ensures StripEnd(s + Spaces(n)) == s
    decreases n
  {
    if n == 0 {
      assert s + Spaces(0) == s;
    } else {
      assert (s + Spaces(n))[..|s| + n - 1] == s + Spaces(n - 1);
      EndStripped(s, n - 1);
    }
  }

  /** The two words the driver knows, whatever spaces follow them; any other single word is an
      unknown kind, and several words are refused. */
  lemma KindRead(i: Info, h: string, word: string, n: nat)
    requires Get(h, "Result-Type") == Some(word + Spaces(n)) && word != "" && !IsSpace(word[|word| - 1])
    ensures ' ' !in word ==>
              ReadResultType(i, h) == Accepted(i.(resultType :=
                if word == "Update-Count" then UPDATE_COUNT else if word == "Result-Set" then RESULT_SET else UNKNOW))
    ensures ' ' in word ==> ReadResultType(i, h) == Rejected(i)
  {
    hide Get, StripEnd, Contains;
    EndStripped(word, n);
    SpaceFound(word);
  }

  /** Nothing but spaces is refused as well: the first of them is never stripped. */
  lemma BlankKind(i: Info, h: string, n: nat)
    requires Get(h, "Result-Type") == Some(Spaces(n)) && n > 0
    ensures ReadResultType(i, h) == Rejected(i)
  {
    hide Get, Contains, StripEnd;
    BlankStripped(n);
    SpaceFound(" ");
  }

  lemma {:induction false} BlankStripped(n: nat)
    requires n > 0
    ensures StripEnd(Spaces(n)) == " "
  {
    if n > 1 {
      assert Spaces(n)[..n - 1] == Spaces(n - 1);
      BlankStripped(n - 1);
    }
  }

  lemma SpaceFound(s: string)
    ensures Contains(s, " ") <==> ' ' in s
  {
    FindExact(s, " ", 0);
    if ' ' in s {
      var p :| 0 <= p < |s| && s[p] == ' ';
      assert s[p..p + 1] == " ";
      assert Occurs(s, " ", p);
    } else {
      FreeByChar(s, " ", ' ');
      FreeFind(s, " ");
    }
  }

  /** A status line that says OK, and whatever lines, with one for the kind of the reply that
      says update, spaces or not, and none for a column count. */
  ghost predicate SaysUpdate(tag: string, lines: seq<Line>, k: nat, n: nat) {
    && ' ' !in tag && Free(tag + " OK", "Column-Count") && Unmentioned(lines, |lines|, "Column-Count")
    && LineFor(tag + " OK", lines, k, "Result-Type", "Update-Count" + Spaces(n))
    && MessageOk(tag + " OK", lines) && |Render(tag + " OK", lines)| < MAX_HEADER
  }

  /** Such a header is accepted as an update. */
  lemma UpdateHeader(tag: string, lines: seq<Line>, k: nat, n: nat)
    requires SaysUpdate(tag, lines, k, n)
    ensures Accepts(Ascii(Render(tag + " OK", lines)), UPDATE_COUNT)
  {
    hide Get, GetStatus, Render, LineFor, Free, Unmentioned, ReadHeader, HeaderText, Ascii, ReadResultType;
    assert tag + " OK" == tag + " " + "OK";
    assert '\n' !in tag + " OK" by { PlainLine(tag + " OK"); }
    assert '\n' !in tag;
    hide MessageOk;
    MessageRead(tag + " OK", lines);
    StatusRead(tag, "OK", lines);
    CountSection();
    hide SectionName;
    GetAbsent(tag + " OK", lines, "Column-Count");
    GetPlain(tag + " OK", lines, k, "Result-Type", "Update-Count" + Spaces(n));
    var h := Render(tag + " OK", lines);
    var i := ReadCounts(ReadAliases(ReadTypes(NO_INFO, h), h), h);
    assert ParseHeader(NO_INFO, h) == ReadResultType(i, h);
    KindRead(i, h, "Update-Count", n);
  }

  lemma CountSection()
    ensures SectionName("Column-Count") && 'B' !in "Result-Type"
  {
  }

  /** Executing against a server that answers so gives the count. */
  lemma UpdateReply(tag: string, lines: seq<Line>, k: nat, spaces: nat, n: int, message: seq<byte>, pageSize: nat,
                    l: Link, more: seq<byte>)
    requires SaysUpdate(tag, lines, k, spaces)
    requires Fits(n, 8) && |message| <= l.net.room
    requires l.net.incoming == Ascii(Render(tag + " OK", lines)) + (ToLe(n, 8) + more)
    ensures var a := Perform(Execute(message, pageSize), l);
            a.Answered? && a.outcome == Updated(n) && a.link.net == Net(l.net.room - |message|, more)
  {
    hide SaysUpdate, Render, Ascii, ReadAnswer, ToLe, Accepts, Fits, ParseHeader, HeaderText;
    UpdateHeader(tag, lines, k, spaces);
    UpdateAnswered(Ascii(Render(tag + " OK", lines)), n, pageSize, l.net.room - |message|, more);
  }

  /** The shortest such header. */
  lemma UpdateExample()
    ensures SaysUpdate("1", [Line("Result-Type", "Update-Count")], 0, 0)
    ensures Accepts(Ascii("1 OK\r\nResult-Type:Update-Count\r\n\r\n"), UPDATE_COUNT)
  {
    hide Accepts, SectionName, Plain, Free, SaysUpdate, MessageOk;
    ExampleSays();
    ExampleText();
    UpdateHeader("1", [Line("Result-Type", "Update-Count")], 0, 0);
  }

  lemma ExampleSays()
    ensures SaysUpdate("1", [Line("Result-Type", "Update-Count")], 0, 0)
  {
    hide SectionName, Plain, Free;
    assert "1" + " OK" == "1 OK" && "Update-Count" + Spaces(0) == "Update-Count";
    ExampleText();
    ExampleSections();
    ExampleFree();
  }

  lemma ExampleText()
    ensures Render("1 OK", [Line("Result-Type", "Update-Count")]) == "1 OK\r\nResult-Type:Update-Count\r\n\r\n"
    ensures "1" + " OK" == "1 OK"
  {
    hide RenderLine;
    var lines := [Line("Result-Type", "Update-Count")];
    var status := "1 OK";
    assert Upto(status, lines, 0) == status + "\r\n";
    assert Upto(status, lines, 1) == status + "\r\n" + RenderLine(lines[0]);
    ExampleLine();
    assert "1 OK" + "\r\n" == "1 OK\r\n";
    assert "1 OK\r\n" + "Result-Type:Update-Count\r\n" == "1 OK\r\nResult-Type:Update-Count\r\n";
  }

  lemma ExampleLine()
    ensures RenderLine(Line("Result-Type", "Update-Count")) == "Result-Type:Update-Count\r\n"
  {
  }

  lemma ExampleFree()
    ensures Free("1 OK", "Column-Count") && Free("1 OK", "Result-Type")
    ensures Free("Result-Type", "Column-Count") && Free("Update-Count", "Column-Count")
  {
    hide Free;
    FreeByChar("1 OK", "Column-Count", '-');
    FreeByChar("1 OK", "Result-Type", '-');
    FreeByChar("Result-Type", "Column-Count", 'C');
    FreeByChar("Update-Count", "Column-Count", 'm');
  }

  lemma ExampleSections()
    ensures SectionName("Result-Type") && Plain("1 OK") && Plain("Result-Type") && Plain("Update-Count")
    ensures '\n' !in "Update-Count"
  {
  }

  // ---------- Fetching and closing ----------

  /** Fetching turns to the page next on the wire: its rows are the outcome, and the stream
      stands behind them. */
  lemma PageFetched(l: Link, w: Window, n: nat, types: seq<VkType>, updateable: bool, tail: seq<byte>)
    requires Shows(l.res, l.net, w, n, types, updateable, tail)
    requires l.res.firstRow + l.res.info.rowCountSent < |Table(w)| && RequestSize(l.res) <= l.net.room
    ensures w.coming != []
    ensures var a := Perform(FetchPage, l);
            && a.Answered? && a.outcome == GotPage(Cells(w.coming[0].rows))
            && Shows(a.link.res, a.link.net, TurnedWindow(w), n, types, updateable, tail)
            && a.link.net == Net(l.net.room - RequestSize(l.res), PagesBytes(w.coming[1..]) + tail)
  {
    hide LoadPage, Shows, RequestSize, Table, Cells, PagesBytes, AnnouncesFrom, FetchInfo;
    LoadNext(l.res, l.net, w, n, types, updateable, tail);
    TurnedShows(l.res, l.net, l.net.room - RequestSize(l.res), w, n, types, updateable, tail);
  }

  /** Closing takes exactly one header off the stream and keeps the result, or ends with the
      error the header names. */
  lemma CloseAnswered(h: seq<byte>, res: Res, room: nat, more: seq<byte>)
    requires ReadHeader(h) == Complete(|h|) && |CloseRequest(res.info.statementId)| <= room
    ensures Perform(CloseStatement, Link(res, Net(room, h + more)))
         == match ParseHeader(NO_INFO, HeaderText(h))
            case Accepted(_) =>
              Answered(Done, Link(res, Net(room - |CloseRequest(res.info.statementId)|, more)))
            case Rejected(j) => Broken(j.errorCode)
  {
    hide ParseHeader, ReadHeader, HeaderText, CloseRequest;
    HeaderPrefix(h, more);
    assert (h + more)[..|h|] == h && (h + more)[|h|..] == more;
  }

  /** The code a failed load leaves: the reply's own when it names one, otherwise -1 for a
      request that cannot be sent, a header that does not come, and rows cut short. */
  lemma LoadFails(res: Res, net: Net)
    ensures var l := LoadPage(res, net);
            var i := FetchInfo(res);
            var c := CheckReply(i, net.incoming);
            && (RequestSize(res) > net.room || !ReadHeader(net.incoming).Complete? ==> l.Failed? && l.error == -1)
            && (RequestSize(res) <= net.room && !ReadHeader(net.incoming).Complete? ==> !l.res.info.ok)
            && (RequestSize(res) <= net.room && c.Refused? ==>
                  l.Failed? && l.error == c.error && l.res.info.ok == c.info.ok)
            && (RequestSize(res) <= net.room && c.Checked? && Body(c.info, c.rest).Fail? ==>
                  l.Failed? && !l.res.info.ok
                  && l.error == match Body(c.info, c.rest).error
                                case Lost => -1
                                case Malformed(_, _, _, code) => code)
  {
    hide ParseHeader, ReadHeader, HeaderText, Body, FetchRequest, Range, SharedColumns, FetchInfo;
    HeaderBounded(net.incoming);
  }

  /** The columns are one array with the second result's until a reply announces a count: type
      names in a page header without one change the caller's columns, and with one they do not. */
  lemma MetadataShared(res: Res, net: Net, types: string)
    requires LoadPage(res, net).Loaded?
    requires var h := CheckReply(FetchInfo(res), net.incoming).header;
             Get(h, "Column-Types") == Some(types) && Get(h, "Column-Aliases-Base64") == None
    ensures var h := CheckReply(FetchInfo(res), net.incoming).header;
            var before, after := res.info.columns, LoadPage(res, net).res.info.columns;
            var names := Tokens(types, ' ');
            && |after| == |before|
            && (Get(h, "Column-Count") != None ==> after == before)
            && (Get(h, "Column-Count") == None ==>
                  forall i :: 0 <= i < |before| ==>
                    after[i] == if i < |names| then Column(TypeFromString(names[i]), names[i], before[i].name)
                                else before[i])
  {
    hide ReadHeader, Body, FetchRequest, Range, ParseHeader, HeaderText, Get, Tokens, TypeFromString;
    HeaderBounded(net.incoming);
    var h := HeaderText(net.incoming[..ReadHeader(net.incoming).n]);
    if Get(h, "Column-Count") == None {
      TypesParsed(FetchInfo(res), h, types);
    }
  }

  lemma TypesParsed(i: Info, h: string, types: string)
    requires ParseHeader(i, h).Accepted? && Get(h, "Column-Count") == None
    requires Get(h, "Column-Types") == Some(types) && Get(h, "Column-Aliases-Base64") == None
    ensures ParseHeader(i, h).info.columns == WithTypes(i.columns, Tokens(types, ' '))
  {
    hide Get, GetStatus, Tokens, WithTypes, Contains, StripEnd, Atoi, ResultTypeFromString;
  }

  // ---------- Runs ----------

  /** A run gets as far as the first command that fails, keeps the outcomes before it, and
      leaves the commands behind it alone. */
  lemma {:induction false} RunStops(before: seq<Command>, c: Command, after: seq<Command>, l: Link)
    requires Run(before, l).end.Answered?
    ensures var so := Run(before, l);
            var all := Run(before + [c] + after, l);
            match Perform(c, so.end.link)
            case Answered(o, l') => all.outcomes == so.outcomes + [o] + Run(after, l').outcomes
                                    && all.end == Run(after, l').end
            case stop => all == Log(so.outcomes, stop)
  {
    hide Perform;
    var all := before + [c] + after;
    if before == [] {
      assert all[0] == c && all[1..] == after;
    } else {
      assert all[0] == before[0] && all[1..] == before[1..] + [c] + after;
      RunStops(before[1..], c, after, Perform(before[0], l).link);
    }
  }
}
