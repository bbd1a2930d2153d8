/** What a reader of the driver's messages finds in them, by the same rules as for replies. */
module Messages {
  import opened Bytes
  import opened Text
  import opened Header
  import opened Stream
  import opened Protocol
  import opened Session
  import opened Paging
  import opened Replies
  import opened Headings
  import opened Requests
  import Base64

  // ---------- Any message of plain lines ----------

  predicate Plain(s: string) {
    forall i :: 0 <= i < |s| ==> s[i] != '\n' && s[i] != '\0' && s[i] < 256 as char
  }

  predicate LineOk(l: Line) {
    l.name != "" && l.name[0] != '\r' && Plain(l.name) && Plain(l.value)
  }

  predicate MessageOk(status: string, lines: seq<Line>) {
    Plain(status) && forall i :: 0 <= i < |lines| ==> LineOk(lines[i])
  }

  lemma {:induction false} UptoPlain(status: string, lines: seq<Line>, n: nat)
    requires n <= |lines| && MessageOk(status, lines)
    ensures var t := Upto(status, lines, n); NoBlankLine(t) && Narrow(t) && '\0' !in t
  {
    if n == 0 {
      assert '\n' !in status;
    } else {
      UptoPlain(status, lines, n - 1);
      assert LineOk(lines[n - 1]);
      LineNoBlank(Upto(status, lines, n - 1), lines[n - 1]);
      LineNarrow(lines[n - 1]);
      hide RenderLine, NoBlankLine;
    }
  }

  lemma LineNarrow(l: Line)
    requires LineOk(l)
    ensures Narrow(RenderLine(l)) && '\0' !in RenderLine(l)
  {
  }

  /** The message ends at its first blank line, and its text comes out as it was written. */
  lemma MessageRead(status: string, lines: seq<Line>)
    requires MessageOk(status, lines) && |Render(status, lines)| < MAX_HEADER
    ensures var b := Ascii(Render(status, lines));
            ReadHeader(b) == Complete(|b|) && HeaderText(b) == Render(status, lines)
  {
    UptoPlain(status, lines, |lines|);
    UptoEnds(status, lines, |lines|);
    var u := Upto(status, lines, |lines|);
    UptoCr(status, lines, |lines|);
    hide Upto, MessageOk, NoBlankLine, ReadHeader;
    var t := Render(status, lines);
    var b := Ascii(t);
    assert t == u + "\r\n";
    assert Narrow(t) && '\0' !in t;
    assert forall i :: 0 <= i < |b| ==> b[i] as char == t[i];
    OnlyEnd(u, t, b);
    assert Chars(b) == t;
  }

  lemma UptoCr(status: string, lines: seq<Line>, n: nat)
    requires n <= |lines|
    ensures var u := Upto(status, lines, n); |u| >= 2 && u[|u| - 2] == '\r' && u[|u| - 1] == '\n'
  {
  }

  /** The value of the first line that mentions the section. */
  lemma GetUpper(status: string, lines: seq<Line>, n: nat, s: string, value: string)
    requires LineFor(status, lines, n, s, value) && 'a' !in s
    ensures Get(Render(status, lines), s) == Some(value)
  {
    hide Get, FieldLength, Free, Render;
    FreeByChar(s, "-Base64", 'a');
    FreeFind(s, "-Base64");
    GetLine(status, lines, n, s);
  }

  /** Numbers are made of digits and a sign. */
  lemma NumberPlain(n: int)
    ensures Plain(Signed(n)) && forall c :: c in Signed(n) ==> c == '-' || '0' <= c <= '9'
  {
  }

  // ---------- Which line is read ----------

  /** t lacks a character of s. */
  predicate Apart(t: string, s: string, c: char) {
    c in s && c !in t
  }

  /** Line n is the one for s: every text before it lacks c or d, two characters of s. */
  lemma LineApart(status: string, lines: seq<Line>, n: nat, s: string, value: string, c: char, d: char)
    requires SectionName(s) && Apart(status, s, c)
    requires n < |lines| && s == lines[n].name && lines[n].value == value && '\n' !in value
    requires forall i :: 0 <= i < n ==>
               (Apart(lines[i].name, s, c) || Apart(lines[i].name, s, d))
               && (Apart(lines[i].value, s, c) || Apart(lines[i].value, s, d))
    ensures LineFor(status, lines, n, s, value)
  {
    hide Free;
    FreeByChar(status, s, c);
    forall i | 0 <= i < n
      ensures Free(lines[i].name, s) && Free(lines[i].value, s)
    {
      FreeApart(lines[i].name, s, c, d);
      FreeApart(lines[i].value, s, c, d);
    }
  }

  lemma FreeApart(t: string, s: string, c: char, d: char)
    requires Apart(t, s, c) || Apart(t, s, d)
    ensures Free(t, s)
  {
    FreeByChar(t, s, if Apart(t, s, c) then c else d);
  }

  // ---------- The page request ----------

  const FETCH := "123 FETCH-RESULT"
  const ID := "STATEMENT-ID"
  const FIRST := "FIRST-ROW-INDEX"
  const LAST := "LAST-ROW-INDEX"
  const COMMAND := Line("COMMAND-INDEX", "000")
  const MODE := Line("Output-Mode", "release")

  function FetchLines(id: int, first: int, last: int): seq<Line> {
    [Line(ID, Signed(id)), COMMAND, Line(FIRST, Signed(first)), Line(LAST, Signed(last)), MODE]
  }

  lemma FourLines(status: string, ls: seq<Line>)
    requires |ls| >= 4
    ensures Upto(status, ls, 4) == status + "\r\n" + RenderLine(ls[0]) + RenderLine(ls[1]) + RenderLine(ls[2])
                                   + RenderLine(ls[3])
  {
    hide RenderLine;
    assert Upto(status, ls, 1) == Upto(status, ls, 0) + RenderLine(ls[0]);
    assert Upto(status, ls, 3) == Upto(status, ls, 1) + RenderLine(ls[1]) + RenderLine(ls[2]);
  }

  lemma Regroup(a: string, name: string, value: string, end: string, more: string)
    ensures a + (name + ":" + value + end) + more == (a + name + ":") + value + (end + more)
  {
  }

  lemma FetchLiterals()
    ensures FETCH + "\r\n" + ID + ":" == "123 FETCH-RESULT\r\nSTATEMENT-ID:"
    ensures "\r\n" + LAST + ":" == "\r\nLAST-ROW-INDEX:"
  {
  }

  lemma CommandLiteral()
    ensures "\r\n" + RenderLine(COMMAND) + FIRST + ":" == "\r\nCOMMAND-INDEX:000\r\nFIRST-ROW-INDEX:"
  {
    CommandLine();
    hide RenderLine;
    assert FIRST + ":" == "FIRST-ROW-INDEX:";
    assert "\r\n" + RenderLine(COMMAND) + FIRST + ":" == "\r\nCOMMAND-INDEX:000\r\n" + (FIRST + ":");
  }

  lemma CommandLine()
    ensures "\r\n" + RenderLine(COMMAND) == "\r\nCOMMAND-INDEX:000\r\n"
  {
  }

  lemma ModeLiteral()
    ensures "\r\n" + (RenderLine(MODE) + "\r\n") == "\r\nOutput-Mode:release\r\n\r\n"
  {
    assert RenderLine(MODE) == "Output-Mode:release\r\n";
    hide RenderLine;
  }

  lemma FetchText(id: int, first: nat, last: nat)
    ensures FetchRequest(id, first, last) == Ascii(Render(FETCH, FetchLines(id, Int32(first), Int32(last))))
  {
    var x, y, z := Signed(id), Signed(Int32(first)), Signed(Int32(last));
    var lines := FetchLines(id, Int32(first), Int32(last));
    FourLines(FETCH, lines);
    assert Render(FETCH, lines) == Upto(FETCH, lines, 4) + (RenderLine(MODE) + "\r\n");
    FetchLiterals();
    CommandLiteral();
    ModeLiteral();
    hide Signed, Int32, Render;
    Joins(FETCH + "\r\n", ID, x, RenderLine(COMMAND), FIRST, y, LAST, z, RenderLine(MODE) + "\r\n");
  }

  lemma Joins(a: string, n0: string, x: string, b: string, n1: string, y: string, n2: string, z: string, c: string)
    ensures a + (n0 + ":" + x + "\r\n") + b + (n1 + ":" + y + "\r\n") + (n2 + ":" + z + "\r\n") + c
         == (a + n0 + ":") + x + ("\r\n" + b + n1 + ":") + y + ("\r\n" + n2 + ":") + z + ("\r\n" + c)
  {
    var p := a + n0 + ":" + x;
    assert a + (n0 + ":" + x + "\r\n") == p + "\r\n";
    var q := p + ("\r\n" + b + n1 + ":") + y;
    assert p + "\r\n" + b + (n1 + ":" + y + "\r\n") == q + "\r\n";
    assert q + "\r\n" + (n2 + ":" + z + "\r\n") == q + ("\r\n" + n2 + ":") + z + "\r\n";
  }

  lemma FetchPlain(id: int, first: int, last: int)
    ensures MessageOk(FETCH, FetchLines(id, first, last))
  {
    NumberPlain(id);
    NumberPlain(first);
    NumberPlain(last);
    FixedPlain();
    hide Signed, Plain;
  }

  lemma FixedPlain()
    ensures Plain(FETCH) && Plain(ID) && Plain(FIRST) && Plain(LAST) && LineOk(COMMAND) && LineOk(MODE)
  {
    PlainNames();
    PlainLines();
    hide Plain, LineOk;
  }

  lemma PlainNames()
    ensures Plain(FETCH) && Plain(ID) && Plain(FIRST) && Plain(LAST)
  {
    PlainSections();
    hide Plain;
    assert Plain(FETCH) by { PlainStatus(); }
  }

  lemma PlainSections()
    ensures Plain(ID) && Plain(FIRST) && Plain(LAST)
  {
  }

  lemma PlainStatus()
    ensures Plain(FETCH) && Plain(CLOSE)
  {
  }

  lemma PlainLines()
    ensures LineOk(COMMAND) && LineOk(MODE)
  {
  }

  lemma FirstMarks()
    ensures Apart(FETCH, FIRST, 'W') && Apart(ID, FIRST, 'W')
    ensures Apart(COMMAND.name, FIRST, 'W') && Apart(COMMAND.value, FIRST, 'W')
  {
    assert FIRST[8] == 'W';
  }

  lemma LastMarks()
    ensures Apart(FETCH, LAST, 'W') && Apart(ID, LAST, 'W')
    ensures Apart(COMMAND.name, LAST, 'W') && Apart(COMMAND.value, LAST, 'W') && Apart(FIRST, LAST, 'L')
  {
    assert LAST[7] == 'W' && LAST[0] == 'L';
  }

  lemma Sections()
    ensures 'a' !in ID && 'a' !in FIRST && 'a' !in LAST
    ensures SectionName(ID) && SectionName(FIRST) && SectionName(LAST)
  {
  }

  lemma IdMarks()
    ensures Apart(FETCH, ID, 'D') && Apart(CLOSE, ID, 'I')
  {
    assert ID[11] == 'D' && ID[10] == 'I';
  }

  lemma FetchId(id: int, first: int, last: int)
    ensures LineFor(FETCH, FetchLines(id, first, last), 0, ID, Signed(id))
  {
    NumberPlain(id);
    Sections();
    IdMarks();
    hide Signed, Apart, SectionName, LineFor;
    LineApart(FETCH, FetchLines(id, first, last), 0, ID, Signed(id), 'D', 'D');
  }

  lemma FetchFirst(id: int, first: int, last: int)
    ensures LineFor(FETCH, FetchLines(id, first, last), 2, FIRST, Signed(first))
  {
    hide Signed, Apart, SectionName, LineFor;
    NumberMarks(id);
    NumberMarks(first);
    FirstMarks();
    Sections();
    LineApart(FETCH, FetchLines(id, first, last), 2, FIRST, Signed(first), 'W', 'W');
  }

  lemma FetchLast(id: int, first: int, last: int)
    ensures LineFor(FETCH, FetchLines(id, first, last), 3, LAST, Signed(last))
  {
    hide Signed, Apart, SectionName, LineFor;
    NumberMarks(id);
    NumberMarks(first);
    NumberMarks(last);
    LastMarks();
    Sections();
    LineApart(FETCH, FetchLines(id, first, last), 3, LAST, Signed(last), 'W', 'L');
  }

  lemma NumberMarks(n: int)
    ensures Apart(Signed(n), FIRST, 'W') && Apart(Signed(n), LAST, 'W') && '\n' !in Signed(n)
  {
    hide Signed;
    NumberPlain(n);
    assert FIRST[8] == 'W' && LAST[7] == 'W';
  }

  lemma FetchShort(id: int, first: nat, last: nat)
    requires -TWO_31 <= id < TWO_31
    ensures |FetchRequest(id, first, last)| < 200
  {
    hide Signed;
    SignedLength(id);
    SignedLength(Int32(first));
    SignedLength(Int32(last));
  }

  /** The page request names its statement and the rows it asks for, each in its own line. */
  lemma FetchRead(id: int, first: nat, last: nat)
    requires -TWO_31 <= id < TWO_31 && first < TWO_31 && last < TWO_31
    ensures var b := FetchRequest(id, first, last);
            && ReadHeader(b) == Complete(|b|)
            && var t := HeaderText(b);
               && "123 FETCH-RESULT\r\n" <= t
               && Get(t, "STATEMENT-ID") == Some(Signed(id))
               && Get(t, "FIRST-ROW-INDEX") == Some(Decimal(first))
               && Get(t, "LAST-ROW-INDEX") == Some(Decimal(last))
  {
    hide Get, Render, LineFor, ReadHeader, HeaderText, FetchRequest, MessageOk, Ascii, Decimal;
    var lines := FetchLines(id, first, last);
    FetchText(id, first, last);
    FetchPlain(id, first, last);
    FetchShort(id, first, last);
    MessageRead(FETCH, lines);
    FetchId(id, first, last);
    FetchFirst(id, first, last);
    FetchLast(id, first, last);
    Sections();
    hide FetchLines, Apart, SectionName;
    GetUpper(FETCH, lines, 0, ID, Signed(id));
    GetUpper(FETCH, lines, 2, FIRST, Signed(first));
    GetUpper(FETCH, lines, 3, LAST, Signed(last));
    var rest := StatusFirst(FETCH, lines);
    assert FETCH + "\r\n" == "123 FETCH-RESULT\r\n";
  }

  /** What a load asks for on the wire: the rows behind those received, a page of them or what
      the table still has, 100 when the result has no page size. */
  lemma LoadAsks(res: Res)
    requires Bounded(res) && Loads(res) && -TWO_31 <= res.info.statementId < TWO_31
    ensures var b := PageRequest(Advanced(res));
            var first := res.firstRow + res.info.rowCountSent;
            var limit := if res.pageSize > 0 then res.pageSize else 100;
            && ReadHeader(b) == Complete(|b|)
            && first < res.info.rowCount
            && Get(HeaderText(b), "STATEMENT-ID") == Some(Signed(res.info.statementId))
            && Get(HeaderText(b), "FIRST-ROW-INDEX") == Some(Decimal(first))
            && Get(HeaderText(b), "LAST-ROW-INDEX") == Some(Decimal(Bytes.Min(first + limit, res.info.rowCount) - 1))
  {
    hide Get, ReadHeader, HeaderText, Range, Loads, FetchRequest, Decimal, Signed;
    LoadInside(res);
    var (first, last) := Range(Advanced(res));
    FetchRead(res.info.statementId, first, last);
  }

  // ---------- Closing ----------

  const CLOSE := "007 CLOSE-STATEMENT"

  lemma CloseText(id: int)
    ensures CloseRequest(id) == Ascii(Render(CLOSE, [Line(ID, Signed(id))]))
  {
    hide Signed;
    var x := Signed(id);
    Regroup(CLOSE + "\r\n", ID, x, "\r\n", "\r\n");
    assert CLOSE + "\r\n" + ID + ":" == "007 CLOSE-STATEMENT\r\nSTATEMENT-ID:";
    assert Upto(CLOSE, [Line(ID, x)], 0) == CLOSE + "\r\n";
    assert Render(CLOSE, [Line(ID, x)]) == CLOSE + "\r\n" + RenderLine(Line(ID, x)) + "\r\n";
  }

  lemma CloseField(id: int)
    ensures LineFor(CLOSE, [Line(ID, Signed(id))], 0, ID, Signed(id)) && MessageOk(CLOSE, [Line(ID, Signed(id))])
  {
    NumberPlain(id);
    PlainNames();
    PlainStatus();
    IdMarks();
    hide Signed, Plain, SectionName, Apart, LineFor;
    Sections();
    LineApart(CLOSE, [Line(ID, Signed(id))], 0, ID, Signed(id), 'I', 'I');
  }

  /** So does the request that closes a statement. */
  lemma CloseRead(id: int)
    requires -TWO_31 <= id < TWO_31
    ensures var b := CloseRequest(id);
            && ReadHeader(b) == Complete(|b|)
            && "007 CLOSE-STATEMENT\r\n" <= HeaderText(b)
            && Get(HeaderText(b), "STATEMENT-ID") == Some(Signed(id))
  {
    hide Get, ReadHeader, HeaderText, Signed, LineFor, Render, MessageOk, SectionName;
    var lines := [Line(ID, Signed(id))];
    SignedLength(id);
    assert |CloseRequest(id)| < 100;
    hide CloseRequest, Ascii;
    CloseText(id);
    CloseField(id);
    MessageRead(CLOSE, lines);
    Sections();
    GetUpper(CLOSE, lines, 0, ID, Signed(id));
    var rest := StatusFirst(CLOSE, lines);
    assert CLOSE + "\r\n" == "007 CLOSE-STATEMENT\r\n";
  }

  // ---------- Executing ----------

  const STATEMENT := "STATEMENT-BASE64"
  const PAGE := "FIRST-PAGE-SIZE"
  const IMAGES := "PREFERRED-IMAGE-TYPES"
  const PARAMETERS := "PARAMETER-TYPES"

  /** The status line; id is three digits. */
  function Executing(id: string): string {
    id + " EXECUTE-STATEMENT"
  }

  predicate Number(id: string) {
    |id| == 3 && forall i :: 0 <= i < 3 ==> '0' <= id[i] <= '9'
  }

  function ExecuteLines(statement: seq<byte>, pageSize: int, images: string): seq<Line> {
    [Line(STATEMENT, Base64.Encode(statement)), MODE, Line(PAGE, Signed(pageSize)), Line(IMAGES, images)]
  }

  function ParamLines(statement: seq<byte>, pageSize: int, images: string, types: string): seq<Line> {
    ExecuteLines(statement, pageSize, images) + [Line(PARAMETERS, types)]
  }

  lemma ExecuteLiterals(id: string)
    ensures Executing(id) + "\r\n" + STATEMENT + ":" == id + " EXECUTE-STATEMENT\r\nSTATEMENT-BASE64:"
    ensures "\r\n" + IMAGES + ":" == "\r\nPREFERRED-IMAGE-TYPES:"
  {
  }

  lemma PageLiteral()
    ensures "\r\n" + RenderLine(MODE) + PAGE + ":" == "\r\nOutput-Mode:release\r\nFIRST-PAGE-SIZE:"
  {
    ModeLine();
    hide RenderLine;
    assert PAGE + ":" == "FIRST-PAGE-SIZE:";
    assert "\r\n" + RenderLine(MODE) + PAGE + ":" == "\r\nOutput-Mode:release\r\n" + (PAGE + ":");
  }

  lemma ModeLine()
    ensures "\r\n" + RenderLine(MODE) == "\r\nOutput-Mode:release\r\n"
  {
  }

  lemma FrontJoined(id: string, statement: seq<byte>, pageSize: int, images: string)
    ensures Front(id, statement, pageSize) + images + "\r\n"
         == Executing(id) + "\r\n" + RenderLine(Line(STATEMENT, Base64.Encode(statement))) + RenderLine(MODE)
            + RenderLine(Line(PAGE, Signed(pageSize))) + RenderLine(Line(IMAGES, images))
  {
    var x, y, mode := Base64.Encode(statement), Signed(pageSize), RenderLine(MODE);
    ExecuteLiterals(id);
    PageLiteral();
    Joins(Executing(id) + "\r\n", STATEMENT, x, mode, PAGE, y, IMAGES, images, "");
    hide Signed, Base64.Encode, Executing;
    assert "\r\n" + "" == "\r\n";
    EmptyBehind(Executing(id) + "\r\n" + RenderLine(Line(STATEMENT, x)) + mode + RenderLine(Line(PAGE, y))
                + RenderLine(Line(IMAGES, images)));
  }

  lemma EmptyBehind(s: string)
    ensures s + "" == s
  {
  }

  lemma FrontText(id: string, statement: seq<byte>, pageSize: int, images: string, lines: seq<Line>)
    requires |lines| >= 4 && lines[..4] == ExecuteLines(statement, pageSize, images)
    ensures Front(id, statement, pageSize) + images + "\r\n" == Upto(Executing(id), lines, 4)
  {
    hide Signed, Base64.Encode, Upto, Executing, RenderLine, Front;
    FourLines(Executing(id), lines);
    FrontJoined(id, statement, pageSize, images);
    assert lines[0] == lines[..4][0] && lines[1] == lines[..4][1];
    assert lines[2] == lines[..4][2] && lines[3] == lines[..4][3];
  }

  lemma ExecuteRendered(id: string, statement: seq<byte>, pageSize: int, images: string)
    ensures ExecuteText(id, statement, pageSize, images)
         == Render(Executing(id), ExecuteLines(statement, pageSize, images))
  {
    var lines := ExecuteLines(statement, pageSize, images);
    hide Signed, Base64.Encode, Upto, Executing, Front;
    assert lines[..4] == lines;
    FrontText(id, statement, pageSize, images, lines);
  }

  lemma ParamRendered(id: string, statement: seq<byte>, pageSize: int, images: string, types: string)
    ensures ParamText(id, statement, pageSize, images, types)
         == Render(Executing(id), ParamLines(statement, pageSize, images, types))
  {
    var lines := ParamLines(statement, pageSize, images, types);
    hide Signed, Base64.Encode, Executing, Front;
    assert lines[..4] == ExecuteLines(statement, pageSize, images);
    FrontText(id, statement, pageSize, images, lines);
    assert Upto(Executing(id), lines, 5) == Upto(Executing(id), lines, 4) + RenderLine(lines[4]);
    hide Upto;
    var f := Front(id, statement, pageSize) + images;
    assert "\r\n" + PARAMETERS + ":" == "\r\nPARAMETER-TYPES:";
    assert f + "\r\n" + (PARAMETERS + ":" + types + "\r\n") == f + ("\r\n" + PARAMETERS + ":") + types + "\r\n";
  }

  lemma ExecutePlain(id: string, statement: seq<byte>, pageSize: int, images: string)
    requires Number(id) && Plain(images)
    ensures MessageOk(Executing(id), ExecuteLines(statement, pageSize, images))
  {
    Based(statement);
    NumberPlain(pageSize);
    ExecuteNames();
    PlainLines();
    hide Signed, Base64.Encode;
    assert Plain(" EXECUTE-STATEMENT");
    assert Plain(Executing(id));
    assert Plain(Base64.Encode(statement));
    hide Plain;
  }

  lemma ExecuteNames()
    ensures Plain(STATEMENT) && Plain(PAGE) && Plain(IMAGES) && Plain(PARAMETERS)
  {
  }

  lemma ExecuteSections()
    ensures SectionName(STATEMENT) && SectionName(PAGE)
    ensures 'a' !in STATEMENT && 'a' !in PAGE
  {
  }

  lemma ImageSections()
    ensures SectionName(IMAGES) && SectionName(PARAMETERS)
    ensures 'a' !in IMAGES && 'a' !in PARAMETERS
  {
  }

  /** The characters that tell the sections apart. */
  lemma StatementMark(id: string)
    requires Number(id)
    ensures Apart(Executing(id), STATEMENT, 'B')
  {
    assert STATEMENT[10] == 'B';
  }

  lemma PageMarks(id: string)
    requires Number(id)
    ensures Apart(Executing(id), PAGE, 'F') && Apart(STATEMENT, PAGE, 'F')
    ensures Apart(MODE.name, PAGE, 'F') && Apart(MODE.value, PAGE, 'F')
  {
    assert PAGE[0] == 'F';
  }

  lemma ImagesMarks(id: string)
    requires Number(id)
    ensures Apart(Executing(id), IMAGES, 'Y') && Apart(STATEMENT, IMAGES, 'Y')
    ensures Apart(MODE.name, IMAGES, 'Y') && Apart(MODE.value, IMAGES, 'Y')
    ensures Apart(PAGE, IMAGES, 'Y')
  {
    assert IMAGES[17] == 'Y';
  }

  lemma ParameterMarks(id: string)
    requires Number(id)
    ensures Apart(Executing(id), PARAMETERS, 'Y') && Apart(STATEMENT, PARAMETERS, 'Y')
    ensures Apart(MODE.name, PARAMETERS, 'Y') && Apart(MODE.value, PARAMETERS, 'Y')
    ensures Apart(PAGE, PARAMETERS, 'Y')
  {
    assert PARAMETERS[11] == 'Y';
  }

  lemma ImagesOutside()
    ensures Free(IMAGES, PARAMETERS)
  {
    forall p: nat
      ensures !Occurs(IMAGES, PARAMETERS, p)
    {
      if p + |PARAMETERS| <= |IMAGES| {
        var w := IMAGES[p..p + |PARAMETERS|];
        assert w[0] == IMAGES[p] && w[1] == IMAGES[p + 1];
      }
    }
  }

  /** A Base64 text and a number lack the hyphen and the letters. */
  lemma ValueMarks(statement: seq<byte>, pageSize: int)
    ensures Apart(Base64.Encode(statement), PAGE, '-') && Apart(Base64.Encode(statement), IMAGES, '-')
            && Apart(Base64.Encode(statement), PARAMETERS, '-')
    ensures Apart(Signed(pageSize), IMAGES, 'Y') && Apart(Signed(pageSize), PARAMETERS, 'Y')
    ensures '\n' !in Base64.Encode(statement) && '\n' !in Signed(pageSize)
  {
    Based(statement);
    NumberPlain(pageSize);
    hide Base64.Encode, Signed;
    assert PAGE[5] == '-' && IMAGES[9] == '-' && PARAMETERS[9] == '-' && IMAGES[17] == 'Y' && PARAMETERS[11] == 'Y';
  }

  /** The lines start with those of an execute. */
  ghost predicate Begins(lines: seq<Line>, statement: seq<byte>, pageSize: int, images: string) {
    && |lines| >= 4 && lines[0] == Line(STATEMENT, Base64.Encode(statement)) && lines[1] == MODE
    && lines[2] == Line(PAGE, Signed(pageSize)) && lines[3] == Line(IMAGES, images)
  }

  lemma StatementLine(id: string, statement: seq<byte>, pageSize: int, images: string, lines: seq<Line>)
    requires Number(id) && Begins(lines, statement, pageSize, images)
    ensures LineFor(Executing(id), lines, 0, STATEMENT, Base64.Encode(statement))
  {
    hide Apart, SectionName, LineFor, Signed, Base64.Encode, Executing, Number;
    StatementMark(id);
    ValueMarks(statement, pageSize);
    ExecuteSections();
    LineApart(Executing(id), lines, 0, STATEMENT, Base64.Encode(statement), 'B', 'B');
  }

  lemma PageLine(id: string, statement: seq<byte>, pageSize: int, images: string, lines: seq<Line>)
    requires Number(id) && Begins(lines, statement, pageSize, images)
    ensures LineFor(Executing(id), lines, 2, PAGE, Signed(pageSize))
  {
    hide Apart, SectionName, LineFor, Signed, Base64.Encode, Executing, Number;
    PageMarks(id);
    ValueMarks(statement, pageSize);
    ExecuteSections();
    LineApart(Executing(id), lines, 2, PAGE, Signed(pageSize), 'F', '-');
  }

  lemma ImagesLine(id: string, statement: seq<byte>, pageSize: int, images: string, lines: seq<Line>)
    requires Number(id) && Plain(images) && Begins(lines, statement, pageSize, images)
    ensures LineFor(Executing(id), lines, 3, IMAGES, images)
  {
    hide Apart, SectionName, LineFor, Plain, Signed, Base64.Encode, Executing, Number;
    PlainLine(images);
    ImagesMarks(id);
    ValueMarks(statement, pageSize);
    ImageSections();
    LineApart(Executing(id), lines, 3, IMAGES, images, 'Y', '-');
  }

  lemma PlainLine(s: string)
    requires Plain(s)
    ensures '\n' !in s
  {
  }

  /** The statement, the page size and the image types are found in the message. */
  ghost predicate Says(t: string, statement: seq<byte>, pageSize: int, images: string) {
    && Get(t, "FIRST-PAGE-SIZE") == Some(Signed(pageSize)) && Get(t, "PREFERRED-IMAGE-TYPES") == Some(images)
    && var s := Get(t, "STATEMENT-BASE64"); s.Some? && Base64.Decode(s.value, true) == Some(statement)
  }

  lemma Said(id: string, statement: seq<byte>, pageSize: int, images: string, lines: seq<Line>)
    requires Number(id) && Plain(images)
    requires Begins(lines, statement, pageSize, images)
    ensures Says(Render(Executing(id), lines), statement, pageSize, images)
  {
    hide Get, Render, LineFor, Plain, Signed, Base64.Encode, Base64.Decode, Executing, Number, SectionName;
    StatementLine(id, statement, pageSize, images, lines);
    PageLine(id, statement, pageSize, images, lines);
    ImagesLine(id, statement, pageSize, images, lines);
    ExecuteSections();
    ImageSections();
    hide Begins;
    GetUpper(Executing(id), lines, 0, STATEMENT, Base64.Encode(statement));
    GetUpper(Executing(id), lines, 2, PAGE, Signed(pageSize));
    GetUpper(Executing(id), lines, 3, IMAGES, images);
    Base64.RoundTrip(statement, true);
  }

  /** The server finds the end of the message exactly when it was not cut off, and then the
      statement, the page size and the image types in it. */
  lemma ExecuteRead(id: string, statement: seq<byte>, pageSize: int, images: string)
    requires Number(id) && Plain(images) && |ExecuteText(id, statement, pageSize, images)| < MAX_HEADER
    ensures var b := Ascii(ExecuteMessage(id, statement, pageSize, images));
            && (ReadHeader(b).Complete? <==> |images| + |Signed(pageSize)| <= 43)
            && (ReadHeader(b).Complete? ==>
                  ReadHeader(b) == Complete(|b|) && Says(HeaderText(b), statement, pageSize, images))
  {
    var lines := ExecuteLines(statement, pageSize, images);
    ExecuteWhole(id, statement, pageSize, images);
    ExecuteRendered(id, statement, pageSize, images);
    ExecutePlain(id, statement, pageSize, images);
    hide Says, ReadHeader, HeaderText, Render, Ascii, Signed, Base64.Encode, Plain, MessageOk, Executing, ExecuteText;
    MessageRead(Executing(id), lines);
    assert Begins(lines, statement, pageSize, images);
    Said(id, statement, pageSize, images, lines);
    hide ExecuteLines, Begins, ExecuteMessage;
    MessageCut(id, statement, pageSize, images);
  }

  lemma MessageCut(id: string, statement: seq<byte>, pageSize: int, images: string)
    requires ReadHeader(Ascii(ExecuteText(id, statement, pageSize, images)))
             == Complete(|ExecuteText(id, statement, pageSize, images)|)
    ensures ReadHeader(Ascii(ExecuteMessage(id, statement, pageSize, images))).Complete? ==>
              ExecuteMessage(id, statement, pageSize, images) == ExecuteText(id, statement, pageSize, images)
  {
    hide ReadHeader, Ascii, ExecuteText, Base64.Encode;
    var t, m := ExecuteText(id, statement, pageSize, images), ExecuteMessage(id, statement, pageSize, images);
    if m != t {
      AsciiCut(t, |m|);
      CutUnread(Ascii(t), |m|);
    }
  }

  lemma AsciiCut(t: string, n: nat)
    requires n <= |t|
    ensures Ascii(t[..n]) == Ascii(t)[..n]
  {
  }

  /** A message that lacks its end is not read. */
  lemma CutUnread(b: seq<byte>, n: nat)
    requires n < |b| && ReadHeader(b) == Complete(|b|)
    ensures !ReadHeader(b[..n]).Complete?
  {
    HeaderBounded(b[..n]);
    HeaderExact(b, |b|);
    hide ReadHeader, EndsAt;
    forall m | 0 <= m <= n
      ensures EndsAt(b[..n], m) == EndsAt(b, m)
    {
      EndsBefore(b, n, m);
    }
  }

  lemma EndsBefore(b: seq<byte>, n: nat, m: nat)
    requires m <= n <= |b|
    ensures EndsAt(b[..n], m) == EndsAt(b, m)
  {
    if m >= 4 {
      assert b[..n][m - 4..m] == b[m - 4..m];
    }
  }

  /** With parameters the message always arrives whole, and the type list is found too. */
  lemma ParamRead(id: string, statement: seq<byte>, pageSize: int, images: string, types: string)
    requires Number(id) && Plain(images) && Plain(types) && Free(images, "PARAMETER-TYPES")
    requires -TWO_31 <= pageSize < TWO_31 && |ParamText(id, statement, pageSize, images, types)| < MAX_HEADER
    ensures var b := Ascii(ParamMessage(id, statement, pageSize, images, types));
            && ReadHeader(b) == Complete(|b|) && Says(HeaderText(b), statement, pageSize, images)
            && Get(HeaderText(b), "PARAMETER-TYPES") == Some(types)
  {
    var lines := ParamLines(statement, pageSize, images, types);
    ParamWhole(id, statement, pageSize, images, types);
    ParamRendered(id, statement, pageSize, images, types);
    ParamPlain(id, statement, pageSize, images, types);
    hide Says, ReadHeader, HeaderText, Render, Ascii, Signed, Base64.Encode, Plain, MessageOk, Executing, ParamText,
      Get;
    MessageRead(Executing(id), lines);
    assert Begins(lines, statement, pageSize, images);
    Said(id, statement, pageSize, images, lines);
    ParameterLine(id, statement, pageSize, images, types);
    ImageSections();
    hide LineFor, ParamLines, SectionName, Number, ParamMessage, Begins;
    GetUpper(Executing(id), lines, 4, PARAMETERS, types);
  }

  lemma ParamPlain(id: string, statement: seq<byte>, pageSize: int, images: string, types: string)
    requires Number(id) && Plain(images) && Plain(types)
    ensures MessageOk(Executing(id), ParamLines(statement, pageSize, images, types))
  {
    ExecutePlain(id, statement, pageSize, images);
    ExecuteNames();
    hide Plain, Signed, Base64.Encode, Executing;
    assert LineOk(Line(PARAMETERS, types));
    hide LineOk;
  }

  lemma ParameterLine(id: string, statement: seq<byte>, pageSize: int, images: string, types: string)
    requires Number(id) && Free(images, PARAMETERS) && Plain(types)
    ensures LineFor(Executing(id), ParamLines(statement, pageSize, images, types), 4, PARAMETERS, types)
  {
    assert '\n' !in types;
    ParameterMarks(id);
    ValueMarks(statement, pageSize);
    ImageSections();
    ImagesOutside();
    hide Free, Apart, SectionName, Plain, Signed, Base64.Encode, Executing, Number;
    FreeByMark(Executing(id));
    var lines := ParamLines(statement, pageSize, images, types);
    assert Free(Executing(id), PARAMETERS);
    forall i | 0 <= i < 4
      ensures Free(lines[i].name, PARAMETERS) && Free(lines[i].value, PARAMETERS)
    {
      if i < 3 {
        FreeApart(lines[i].name, PARAMETERS, 'Y', '-');
        FreeApart(lines[i].value, PARAMETERS, 'Y', '-');
      }
    }
  }

  lemma FreeByMark(t: string)
    ensures Apart(t, PARAMETERS, 'Y') ==> Free(t, PARAMETERS)
  {
    hide Free;
    if Apart(t, PARAMETERS, 'Y') {
      FreeByChar(t, PARAMETERS, 'Y');
    }
  }
}
