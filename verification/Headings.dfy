/** Complete reply headers: the eight lines of a result set, in any order, and what the
    driver's parser makes of them. */
module Headings {
  import opened Bytes
  import opened Text
  import opened Codec
  import opened Header
  import opened Stream
  import opened Replies
  import Aliases
  import Base64

  /** What a result-set reply says about its statement and its page, and the order of its
      lines. */
  datatype Heading = Heading(tag: string, statementId: nat, types: seq<VkType>, names: seq<string>,
                             rowCount: nat, sent: nat, updateable: bool, order: seq<nat>)

  /** A permutation of the eight lines. */
  predicate Ordered(o: seq<nat>) {
    && |o| == 8 && (forall k :: 0 <= k < 8 ==> o[k] < 8)
    && (forall n :: 0 <= n < 8 ==> n in o)
    && (forall j, k :: 0 <= j < k < 8 ==> o[j] != o[k])
  }

  ghost function Place(o: seq<nat>, n: nat): (k: nat)
    requires Ordered(o) && n < 8
    ensures k < 8 && o[k] == n
  {
    assert n in o;
    var k :| 0 <= k < |o| && o[k] == n;
    k
  }

  const USUAL: seq<nat> := [0, 1, 2, 3, 4, 5, 6, 7]

  predicate Writable(d: Heading) {
    d.types != [] && d.names != [] && Narrow(Aliases.Joined(d.names)) && Ordered(d.order)
  }

  /** The values fit the buffers they are read into. */
  ghost predicate HeadingOk(d: Heading) {
    && ' ' !in d.tag && '\n' !in d.tag && '-' !in d.tag && Narrow(d.tag) && '\0' !in d.tag
    && d.statementId < 0x8000_0000 && d.rowCount < 0x8000_0000 && d.sent < 0x8000_0000
    && 0 < |d.types| == |d.names| <= MAX_COLUMNS
    && (forall k :: 0 <= k < |d.types| ==> d.types[k] != VK_TIME && d.types[k] != VK_TEXT)
    && |TypeList(d.types)| + 1 < TYPES_BUFFER
    && NamesOk(d.names) && Aliases.Separable(d.names) && Narrow(Aliases.Joined(d.names)) && Ordered(d.order)
  }

  function StatusOf(d: Heading): string {
    d.tag + " OK"
  }

  const SECTIONS: seq<string> :=
    [ "Statement-ID", "Column-Count", "Column-Types", "Column-Aliases-Base64", "Row-Count", "Row-Count-Sent",
      "Column-Updateability", "Result-Type" ]

  /** The line of section n. */
  function LineOf(d: Heading, n: nat): (l: Line)
    requires Writable(d) && n < 8
    ensures l.name == SECTIONS[n]
  {
    if n == 0 then Line("Statement-ID", Decimal(d.statementId))
    else if n == 1 then Line("Column-Count", Decimal(|d.types|))
    else if n == 2 then Line("Column-Types", TypeList(d.types))
    else if n == 3 then Line("Column-Aliases-Base64", AliasValue(d.names, false))
    else if n == 4 then Line("Row-Count", Decimal(d.rowCount))
    else if n == 5 then Line("Row-Count-Sent", Decimal(d.sent))
    else if n == 6 then Line("Column-Updateability", if d.updateable then "Y" else "N")
    else Line("Result-Type", "Result-Set")
  }

  function Lines(d: Heading): (ls: seq<Line>)
    requires Writable(d)
    ensures |ls| == 8 && forall k :: 0 <= k < 8 ==> ls[k] == LineOf(d, d.order[k])
  {
    seq(8, k requires 0 <= k < 8 => LineOf(d, d.order[k]))
  }

  function Rendered(d: Heading): string
    requires Writable(d)
  {
    Render(StatusOf(d), Lines(d))
  }

  /** Row-Count is also the beginning of Row-Count-Sent: the parser reads whichever line
      comes first. */
  ghost predicate RowCountFirst(d: Heading)
    requires Ordered(d.order)
  {
    Place(d.order, 4) < Place(d.order, 5)
  }

  /** The row count the parser gets. */
  ghost function RowCountRead(d: Heading): nat
    requires Ordered(d.order)
  {
    if RowCountFirst(d) then d.rowCount else d.sent
  }

  // ---------- No line mentions another section ----------

  /** A character that section n has and section i lacks. */
  function Mark(n: nat, i: nat): char {
    if n == 0 then 'I'
    else if n == 1 then if i == 0 || i == 7 then 'C' else if i == 4 || i == 5 then 'l' else 't'
    else if n == 2 then if i == 0 || i == 7 then 'C' else 'T'
    else if n == 3 then 'A'
    else if n == 4 then if i == 7 then 'C' else 'R'
    else if n == 5 then if i == 4 then 'S' else if i == 7 then 'C' else 'R'
    else if n == 6 then 'U'
    else if i == 4 || i == 5 then 'y' else 'R'
  }

  lemma MarkOk(n: nat, i: nat)
    requires n < 8 && i < 8 && n != i && !(n == 4 && i == 5) && !(n == 1 && i == 6)
    ensures Mark(n, i) in SECTIONS[n] && Mark(n, i) !in SECTIONS[i]
  {
    if n < 4 {
      MarkLow(n, i);
    } else {
      MarkHigh(n, i);
    }
  }

  lemma MarkLow(n: nat, i: nat)
    requires n < 4 && i < 8 && n != i && !(n == 1 && i == 6)
    ensures Mark(n, i) in SECTIONS[n] && Mark(n, i) !in SECTIONS[i]
  {
  }

  lemma MarkHigh(n: nat, i: nat)
    requires 4 <= n < 8 && i < 8 && n != i && !(n == 4 && i == 5)
    ensures Mark(n, i) in SECTIONS[n] && Mark(n, i) !in SECTIONS[i]
  {
  }

  /** The one pair where characters do not tell. */
  lemma CountOutside()
    ensures Free("Column-Updateability", "Column-Count")
  {
    var t, s := "Column-Updateability", "Column-Count";
    forall p: nat
      ensures !Occurs(t, s, p)
    {
      if p <= 8 {
        var w := t[p..p + 12];
        assert w[6] == t[p + 6] && w[7] == t[p + 7];
        assert t[p + 6] == '-' ==> p == 0 && t[p + 7] == 'U';
      }
    }
  }

  lemma SectionFree(n: nat, i: nat)
    requires n < 8 && i < 8 && n != i && !(n == 4 && i == 5)
    ensures Free(SECTIONS[i], SECTIONS[n])
  {
    hide Free;
    if n == 1 && i == 6 {
      CountOutside();
    } else {
      MarkOk(n, i);
      FreeByChar(SECTIONS[i], SECTIONS[n], Mark(n, i));
    }
  }

  /** Characters a field value of such a header is made of. */
  predicate PlainValue(v: string) {
    forall i :: 0 <= i < |v| ==> v[i] != '-' && v[i] != '\n' && v[i] != '\0' && v[i] < 256 as char
  }

  lemma {:induction false} TypeListPlain(types: seq<VkType>)
    requires types != []
    ensures PlainValue(TypeList(types))
  {
    assert PlainValue(StringFromType(types[0]));
    if |types| > 1 {
      TypeListPlain(types[1..]);
      hide StringFromType;
      assert PlainValue(TypeList(types));
    }
  }

  lemma AliasValuePlain(names: seq<string>, spaced: bool)
    requires names != [] && Narrow(Aliases.Joined(names))
    ensures PlainValue(AliasValue(names, spaced))
  {
    var list := Raw(Aliases.Joined(names) + if spaced then " " else "");
    Based(list);
  }

  lemma Based(b: seq<byte>)
    ensures PlainValue(Base64.Encode(b))
  {
    var q := Base64.SextetsOf(b);
    assert PlainValue(Base64.Chars(q));
    hide Base64.Chars, Base64.TableChar;
    assert PlainValue(Base64.Padding(|b|));
  }

  lemma LinePlain(d: Heading, n: nat)
    requires HeadingOk(d) && n < 7
    ensures PlainValue(LineOf(d, n).value)
  {
    hide Base64.Encode, StringFromType, Decimal;
    TypeListPlain(d.types);
    AliasValuePlain(d.names, false);
    hide TypeList, AliasValue;
  }

  /** The line of section i mentions section n neither in its name nor in its value. */
  lemma LineFree(d: Heading, n: nat, i: nat)
    requires HeadingOk(d) && n < 8 && i < 8 && n != i && !(n == 4 && i == 5)
    ensures Free(LineOf(d, i).name, SECTIONS[n]) && Free(LineOf(d, i).value, SECTIONS[n])
  {
    hide Free, NamesOk, Narrow;
    SectionFree(n, i);
    SectionsOk(n);
    if i < 7 {
      LinePlain(d, i);
      FreeByChar(LineOf(d, i).value, SECTIONS[n], '-');
    } else {
      ResultSetFree(n);
    }
  }

  lemma ResultSetFree(n: nat)
    requires n < 7
    ensures Free("Result-Set", SECTIONS[n])
  {
    hide Free;
    var c := if n == 0 then 'I' else 'C';
    assert c in SECTIONS[n] && c !in "Result-Set";
    FreeByChar("Result-Set", SECTIONS[n], c);
  }

  lemma SectionsOk(n: nat)
    requires n < 8
    ensures SectionName(SECTIONS[n]) && '-' in SECTIONS[n]
    ensures n != 3 ==> 'B' !in SECTIONS[n]
  {
    hide SectionName;
    SectionMarks(n);
    SectionDelimited(n);
  }

  lemma SectionDelimited(n: nat)
    requires n < 8
    ensures SectionName(SECTIONS[n])
  {
  }

  lemma SectionMarks(n: nat)
    requires n < 8
    ensures '-' in SECTIONS[n] && (n != 3 ==> 'B' !in SECTIONS[n])
  {
  }

  lemma StatusFree(d: Heading, n: nat)
    requires HeadingOk(d) && n < 8
    ensures Free(StatusOf(d), SECTIONS[n])
  {
    SectionsOk(n);
    assert '-' !in StatusOf(d);
    FreeByChar(StatusOf(d), SECTIONS[n], '-');
  }

  /** The value of section n stands on line k, and no line before mentions section n. */
  lemma LineAt(d: Heading, n: nat, k: nat)
    requires HeadingOk(d) && n < 8 && k < 8 && SECTIONS[n] <= SECTIONS[d.order[k]]
    requires forall j :: 0 <= j < k ==> d.order[j] != n && !(n == 4 && d.order[j] == 5)
    ensures LineFor(StatusOf(d), Lines(d), k, SECTIONS[n], LineOf(d, d.order[k]).value)
  {
    SectionsOk(n);
    SectionsOk(d.order[k]);
    StatusFree(d, n);
    ValueLine(d, d.order[k]);
    hide Free, LineOf;
    forall j | 0 <= j < k
      ensures Free(Lines(d)[j].name, SECTIONS[n]) && Free(Lines(d)[j].value, SECTIONS[n])
    {
      LineFree(d, n, d.order[j]);
    }
    hide HeadingOk, SectionName;
  }

  lemma ValueLine(d: Heading, n: nat)
    requires HeadingOk(d) && n < 8
    ensures '\n' !in LineOf(d, n).value
  {
    if n < 7 {
      LinePlain(d, n);
      hide LineOf;
    }
  }

  /** The line of each section is the one read, but for Row-Count behind Row-Count-Sent. */
  lemma HeadingLine(d: Heading, n: nat)
    requires HeadingOk(d) && n < 8 && (n != 4 || RowCountFirst(d))
    ensures LineFor(StatusOf(d), Lines(d), Place(d.order, n), SECTIONS[n], LineOf(d, n).value)
  {
    hide LineOf, LineFor, TypeList, NamesOk, Narrow;
    LineAt(d, n, Place(d.order, n));
  }

  /** Then the line of Row-Count-Sent is read for both. */
  lemma SentLine(d: Heading)
    requires HeadingOk(d) && !RowCountFirst(d)
    ensures LineFor(StatusOf(d), Lines(d), Place(d.order, 5), SECTIONS[4], LineOf(d, 5).value)
  {
    hide LineOf, LineFor, TypeList, NamesOk, Narrow;
    assert SECTIONS[4] <= SECTIONS[5];
    LineAt(d, 4, Place(d.order, 5));
  }

  lemma HeadingField(d: Heading, n: nat)
    requires HeadingOk(d) && n < 8 && n != 3 && (n != 4 || RowCountFirst(d))
    ensures Get(Rendered(d), SECTIONS[n]) == Some(LineOf(d, n).value)
    ensures FieldLength(Rendered(d), SECTIONS[n]) == Some(|LineOf(d, n).value| + 1)
  {
    hide LineOf, LineFor, TypeList, NamesOk, Narrow, Get, FieldLength, Render;
    HeadingLine(d, n);
    SectionsOk(n);
    GetPlain(StatusOf(d), Lines(d), Place(d.order, n), SECTIONS[n], LineOf(d, n).value);
  }

  lemma RowCountField(d: Heading)
    requires HeadingOk(d)
    ensures Get(Rendered(d), "Row-Count") == Some(Decimal(RowCountRead(d)))
    ensures FieldLength(Rendered(d), "Row-Count") == Some(|Decimal(RowCountRead(d))| + 1)
  {
    hide LineFor, TypeList, AliasValue, NamesOk, Narrow, Get, FieldLength, Render;
    if RowCountFirst(d) {
      HeadingField(d, 4);
    } else {
      SentLine(d);
      SectionsOk(4);
      GetPlain(StatusOf(d), Lines(d), Place(d.order, 5), SECTIONS[4], LineOf(d, 5).value);
    }
  }

  lemma HeadingCounts(d: Heading)
    requires HeadingOk(d)
    ensures var h := Rendered(d);
            && Get(h, "Row-Count") == Some(Decimal(RowCountRead(d)))
            && Get(h, "Row-Count-Sent") == Some(Decimal(d.sent))
            && Get(h, "Statement-ID") == Some(Decimal(d.statementId))
            && Get(h, "Column-Updateability") == Some(if d.updateable then "Y" else "N")
            && Get(h, "Result-Type") == Some("Result-Set")
            && FieldsFit(h)
  {
    hide Get, FieldLength, Render, TypeList, AliasValue, NamesOk, Narrow, Lines, Rendered;
    RowCountField(d);
    HeadingField(d, 0);
    HeadingField(d, 1);
    HeadingField(d, 2);
    HeadingField(d, 5);
    HeadingField(d, 6);
    HeadingField(d, 7);
    Short(d);
  }

  lemma Short(d: Heading)
    requires HeadingOk(d)
    ensures |Decimal(RowCountRead(d))| <= 11 && |Decimal(d.sent)| <= 11
    ensures |Decimal(d.statementId)| <= 11 && |Decimal(|d.types|)| <= 11
  {
    CountShort(RowCountRead(d));
    CountShort(d.sent);
    CountShort(d.statementId);
    CountShort(|d.types|);
  }

  lemma StatusGood(d: Heading)
    requires HeadingOk(d)
    ensures GetStatus(Rendered(d)) == Good
  {
    hide Render, Lines, NamesOk, Narrow, GetStatus, TypeList;
    assert StatusOf(d) == d.tag + " " + "OK";
    StatusRead(d.tag, "OK", Lines(d));
  }

  /** In any order of its lines the parser gets back everything the heading says, with the
      possible exception of the row count; every value fits its buffer. */
  lemma HeadingParsed(d: Heading, i: Info)
    requires HeadingOk(d)
    ensures var p := ParseHeader(i, Rendered(d));
            && p.Accepted? && Describes(p.info.columns, d.types, d.names)
            && p.info == Info(true, 0, RESULT_SET, d.statementId, d.updateable, RowCountRead(d), d.sent, p.info.columns)
            && NamesFit(p.info.columns)
    ensures FieldsFit(Rendered(d))
  {
    var h := Rendered(d);
    StatusGood(d);
    hide LineFor, Get, Render, FieldsFit, RowCountRead, NamesFit;
    HeadingLine(d, 1);
    HeadingLine(d, 2);
    HeadingLine(d, 3);
    var i0 := i.(ok := true, errorCode := 0);
    MetadataRecovered(StatusOf(d), Lines(d), Place(d.order, 1), Place(d.order, 2), Place(d.order, 3),
                      d.types, d.names, false, i0);
    hide Lines, LineOf, TypeList;
    HeadingCounts(d);
    HeadingTail(d);
  }

  /** The row count is right exactly when its line comes first, or both counts are equal. */
  lemma RowCountRight(d: Heading, i: Info)
    requires HeadingOk(d)
    ensures ParseHeader(i, Rendered(d)).info.rowCount == d.rowCount <==> RowCountFirst(d) || d.rowCount == d.sent
  {
    hide ParseHeader, Rendered, RowCountFirst;
    HeadingParsed(d, i);
  }

  lemma HeadingTail(d: Heading)
    requires HeadingOk(d)
    ensures Atoi(Decimal(RowCountRead(d))) == RowCountRead(d) && Atoi(Decimal(d.sent)) == d.sent
    ensures Atoi(Decimal(d.statementId)) == d.statementId
    ensures Contains("Y", "Y") && !Contains("N", "Y")
    ensures !Contains(StripEnd("Result-Set"), " ") && StripEnd("Result-Set") == "Result-Set"
  {
    AtoiDecimal(RowCountRead(d));
    AtoiDecimal(d.sent);
    AtoiDecimal(d.statementId);
    hide Atoi, Decimal, HeadingOk;
    FindChar("Y", 'Y', 0, 0);
    FreeByChar("N", "Y", 'Y');
    FreeFind("N", "Y");
    FreeByChar("Result-Set", " ", ' ');
    FreeFind("Result-Set", " ");
  }

  // ---------- The header block on the wire ----------

  lemma {:induction false} UptoNoBlank(d: Heading, n: nat)
    requires HeadingOk(d) && n <= 8
    ensures NoBlankLine(Upto(StatusOf(d), Lines(d), n))
  {
    hide LineOf, NamesOk, Narrow, TypeList;
    if n == 0 {
      assert '\n' !in StatusOf(d);
    } else {
      UptoNoBlank(d, n - 1);
      ValueLine(d, d.order[n - 1]);
      NamePlain(d.order[n - 1]);
      LineNoBlank(Upto(StatusOf(d), Lines(d), n - 1), Lines(d)[n - 1]);
    }
  }

  lemma NamePlain(n: nat)
    requires n < 8
    ensures SECTIONS[n] != "" && SECTIONS[n][0] != '\r' && '\n' !in SECTIONS[n]
  {
  }

  lemma {:induction false} UptoNarrow(d: Heading, n: nat)
    requires HeadingOk(d) && n <= 8
    ensures Narrow(Upto(StatusOf(d), Lines(d), n)) && '\0' !in Upto(StatusOf(d), Lines(d), n)
  {
    hide LineOf, NamesOk, TypeList;
    if n > 0 {
      UptoNarrow(d, n - 1);
      FieldNarrow(d, d.order[n - 1]);
    }
  }

  lemma FieldNarrow(d: Heading, n: nat)
    requires HeadingOk(d) && n < 8
    ensures Narrow(RenderLine(LineOf(d, n))) && '\0' !in RenderLine(LineOf(d, n))
  {
    SectionNarrow(n);
    if n < 7 {
      LinePlain(d, n);
      hide LineOf, NamesOk;
    }
  }

  lemma SectionNarrow(n: nat)
    requires n < 8
    ensures Narrow(SECTIONS[n]) && '\0' !in SECTIONS[n]
  {
  }

  lemma RenderNarrow(d: Heading)
    requires HeadingOk(d)
    ensures Narrow(Rendered(d)) && '\0' !in Rendered(d)
  {
    UptoNarrow(d, 8);
    hide Lines, NamesOk, TypeList;
  }

  /** The bytes of the reply header. */
  function HeadingBytes(d: Heading): seq<byte>
    requires Writable(d) && Narrow(Rendered(d))
  {
    Raw(Rendered(d))
  }

  /** The header reader stops exactly at its end. */
  lemma HeadingRead(d: Heading)
    requires HeadingOk(d) && |Rendered(d)| < MAX_HEADER
    ensures Narrow(Rendered(d))
    ensures ReadHeader(HeadingBytes(d)) == Complete(|HeadingBytes(d)|)
    ensures HeaderText(HeadingBytes(d)) == Rendered(d)
  {
    RenderNarrow(d);
    UptoNoBlank(d, 8);
    UptoEnds(StatusOf(d), Lines(d), 8);
    hide Lines, NamesOk, Narrow, TypeList;
    OnlyEnd(Upto(StatusOf(d), Lines(d), 8), Rendered(d), HeadingBytes(d));
  }

  // ---------- A header of nothing but its status line ----------

  predicate TagOk(tag: string) {
    ' ' !in tag && '\n' !in tag && '-' !in tag && '\0' !in tag && Narrow(tag)
  }

  function BareText(tag: string): string {
    Render(tag + " OK", [])
  }

  function BareBytes(tag: string): seq<byte>
    requires TagOk(tag)
  {
    assert BareText(tag) == tag + " OK\r\n\r\n";
    Raw(BareText(tag))
  }

  lemma BareAbsent(tag: string, s: string)
    requires TagOk(tag) && SectionName(s) && '-' in s
    ensures Get(BareText(tag), s) == None && FieldLength(BareText(tag), s) == None
  {
    FreeByChar(tag + " OK", s, '-');
    hide Free, Get, FieldLength, Render;
    GetAbsent(tag + " OK", [], s);
  }

  /** It changes no field but the status, and every field fits its buffer. */
  lemma BareParsed(tag: string, i: Info)
    requires TagOk(tag)
    ensures ParseHeader(i, BareText(tag)) == Accepted(i.(ok := true, errorCode := 0))
    ensures FieldsFit(BareText(tag))
  {
    assert tag + " OK" == tag + " " + "OK";
    hide Get, FieldLength, GetStatus, Render, SectionName;
    StatusRead(tag, "OK", []);
    forall n | 0 <= n < 8
      ensures Get(BareText(tag), SECTIONS[n]) == None && FieldLength(BareText(tag), SECTIONS[n]) == None
    {
      SectionsOk(n);
      BareAbsent(tag, SECTIONS[n]);
    }
    BareFields(tag);
  }

  lemma BareFields(tag: string)
    requires forall n :: 0 <= n < 8 ==>
               Get(BareText(tag), SECTIONS[n]) == None && FieldLength(BareText(tag), SECTIONS[n]) == None
    ensures var h := BareText(tag);
            && Get(h, "Column-Count") == None && Get(h, "Column-Types") == None
            && Get(h, "Column-Aliases-Base64") == None && Get(h, "Row-Count") == None
            && Get(h, "Row-Count-Sent") == None && Get(h, "Statement-ID") == None
            && Get(h, "Column-Updateability") == None && Get(h, "Result-Type") == None
            && FieldsFit(h)
  {
    hide Get, FieldLength, BareText;
    assert SECTIONS[0] == "Statement-ID" && SECTIONS[1] == "Column-Count" && SECTIONS[2] == "Column-Types";
    assert SECTIONS[3] == "Column-Aliases-Base64" && SECTIONS[4] == "Row-Count" && SECTIONS[5] == "Row-Count-Sent";
    assert SECTIONS[6] == "Column-Updateability" && SECTIONS[7] == "Result-Type";
  }

  lemma BareRead(tag: string)
    requires TagOk(tag) && |tag| < 1000
    ensures ReadHeader(BareBytes(tag)) == Complete(|BareBytes(tag)|)
    ensures HeaderText(BareBytes(tag)) == BareText(tag)
  {
    var t := tag + " OK\r\n";
    assert BareText(tag) == t + "\r\n";
    OnlyEnd(t, BareText(tag), BareBytes(tag));
  }
}
