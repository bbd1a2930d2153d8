/** Reply headers: reading one field, reading the status, and the whole parse. */
module Header {
  import opened Bytes
  import opened Text
  import opened Codec
  import Base64
  import Aliases

  const MAX_COLUMNS := 32767

  // ---------- Type names ----------

  function TypeFromString(s: string): VkType {
    if s == "VK_BOOLEAN" then VK_BOOLEAN
    else if s == "VK_BYTE" then VK_BYTE
    else if s == "VK_WORD" then VK_WORD
    else if s == "VK_LONG" then VK_LONG
    else if s == "VK_LONG8" then VK_LONG8
    else if s == "VK_REAL" then VK_REAL
    else if s == "VK_FLOAT" then VK_FLOAT
    else if s == "VK_TIMESTAMP" then VK_TIMESTAMP
    else if s == "VK_TIME" then VK_TIMESTAMP
    else if s == "VK_DURATION" then VK_DURATION
    else if s == "VK_TEXT" then VK_STRING
    else if s == "VK_STRING" then VK_STRING
    else if s == "VK_BLOB" then VK_BLOB
    else if s == "VK_BLOB_OBJ" then VK_BLOB
    else if s == "VK_IMAGE" then VK_IMAGE
    else VK_UNKNOW
  }

  function StringFromType(t: VkType): string {
    match t
    case VK_BOOLEAN => "VK_BOOLEAN"
    case VK_BYTE => "VK_BYTE"
    case VK_WORD => "VK_WORD"
    case VK_LONG => "VK_LONG"
    case VK_LONG8 => "VK_LONG8"
    case VK_REAL => "VK_REAL"
    case VK_FLOAT => "VK_FLOAT"
    case VK_TIMESTAMP => "VK_TIMESTAMP"
    case VK_TIME => "VK_TIME"
    case VK_DURATION => "VK_DURATION"
    case VK_STRING => "VK_STRING"
    case VK_BLOB => "VK_BLOB"
    case VK_IMAGE => "VK_IMAGE"
    case VK_TEXT | VK_UNKNOW => "VK_UNKNOW"
  }

  /** A type survives being named and read back unless it is one of the two aliases. */
  lemma TypeRoundTrip(t: VkType)
    ensures TypeFromString(StringFromType(t)) == t <==> t != VK_TIME && t != VK_TEXT
  {
    var s := StringFromType(t);
    assert |s| >= 7 && s[3] in "BWLRFTDSIU" && s[4] in "OYALETMUNRI";
    assert t.VK_LONG? ==> |s| == 7;
  }

  /** The names of the fixed types, */
  lemma FixedNames()
    ensures TypeFromString("VK_BOOLEAN") == VK_BOOLEAN && TypeFromString("VK_BYTE") == VK_BYTE
    ensures TypeFromString("VK_WORD") == VK_WORD && TypeFromString("VK_LONG") == VK_LONG
    ensures TypeFromString("VK_LONG8") == VK_LONG8 && TypeFromString("VK_REAL") == VK_REAL
    ensures TypeFromString("VK_DURATION") == VK_DURATION
  {
    assert "VK_WORD"[3] == 'W' && "VK_BYTE"[3] == 'B' && "VK_LONG"[3] == 'L' && "VK_REAL"[3] == 'R';
    assert "VK_LONG8"[3] == 'L' && "VK_DURATION"[3] == 'D' && "VK_BOOLEAN"[3] == 'B';
  }

  /** of the others, among them two old names, and a name that says BLOB twice; */
  lemma OtherNames()
    ensures TypeFromString("VK_FLOAT") == VK_FLOAT && TypeFromString("VK_IMAGE") == VK_IMAGE
    ensures TypeFromString("VK_TIMESTAMP") == TypeFromString("VK_TIME") == VK_TIMESTAMP
    ensures TypeFromString("VK_STRING") == TypeFromString("VK_TEXT") == VK_STRING
    ensures TypeFromString("VK_BLOB") == TypeFromString("VK_BLOB_OBJ") == VK_BLOB
  {
    assert "VK_TIME"[3] == 'T' && "VK_TIME"[4] == 'I' && "VK_TEXT"[3] == 'T' && "VK_TEXT"[4] == 'E';
    assert "VK_FLOAT"[3] == 'F' && "VK_IMAGE"[3] == 'I' && "VK_STRING"[3] == 'S' && "VK_BLOB"[4] == 'L';
    assert "VK_BLOB"[3] == 'B' && "VK_BYTE"[4] == 'Y' && "VK_BLOB_OBJ"[3] == 'B';
  }

  const NAMES: set<string> :=
    { "VK_BOOLEAN", "VK_BYTE", "VK_WORD", "VK_LONG", "VK_LONG8", "VK_REAL", "VK_FLOAT", "VK_TIMESTAMP", "VK_TIME",
      "VK_DURATION", "VK_TEXT", "VK_STRING", "VK_BLOB", "VK_BLOB_OBJ", "VK_IMAGE" }

  /** and nothing else names a type. */
  lemma NoOtherNames(s: string)
    ensures TypeFromString(s) == VK_UNKNOW <==> s !in NAMES
  {
  }

  // ---------- Reading one field ----------

  /** The value of the first line that mentions the section. The copy keeps one character
      less than the line holds, which is what drops the carriage return. */
  function Get(msg: string, section: string): Option<string> {
    match Find(msg, section, 0)
    case None => None
    case Some(at) =>
      match Find(msg, ":", at + |section|)
      case None => None
      case Some(colon) =>
        match Find(msg, "\n", colon + 1)
        case None => None
        case Some(fin) =>
          FindExact(msg, "\n", colon + 1);
          var value := if fin == colon + 1 then "" else msg[colon + 1..fin - 1];
          Some(if Contains(section, "-Base64") then Unbased(value) else value)
  }

  /** The length of the text between the section's colon and the end of its line. */
  function FieldLength(msg: string, section: string): Option<nat> {
    match Find(msg, section, 0)
    case None => None
    case Some(at) =>
      match Find(msg, ":", at + |section|)
      case None => None
      case Some(colon) =>
        match Find(msg, "\n", colon + 1)
        case None => None
        case Some(fin) =>
          FindExact(msg, "\n", colon + 1);
          Some(fin - colon - 1)
  }

  /** The value and its NUL stay inside a buffer of that size. */
  predicate FieldFits(msg: string, section: string, size: nat) {
    FieldLength(msg, section).Some? ==> FieldLength(msg, section).value < size
  }

  // The buffers fields are read into; the alias list gets one of its own size.
  const FIELD_BUFFER := 250
  const TYPES_BUFFER := 2048
  const NAME_BUFFER := 255
  const STATUS_BUFFER := 50      // the status word, and the error code
  const ERROR_BUFFER := 2048

  const PLAIN_FIELDS: seq<string> :=
    ["Column-Count", "Row-Count", "Row-Count-Sent", "Statement-ID", "Column-Updateability", "Result-Type"]

  /** Every field of the header stays inside the buffer it is read into. */
  predicate FieldsFit(h: string) {
    && FieldFits(h, "Column-Types", TYPES_BUFFER)
    && forall i :: 0 <= i < |PLAIN_FIELDS| ==> FieldFits(h, PLAIN_FIELDS[i], FIELD_BUFFER)
  }

  /** Type names and column names stay inside theirs. */
  predicate NamesFit(cs: seq<Column>) {
    forall i :: 0 <= i < |cs| ==> |cs[i].typeName| < NAME_BUFFER && |cs[i].name| < NAME_BUFFER
  }

  /** A Base64 value in clear, as a C string; left alone when it does not decode. */
  function Unbased(value: string): string {
    match Base64.Decode(value, false)
    case None => value
    case Some(b) => CStr(Chars(b))
  }

  datatype Status = Good | Bad(code: int) | Unreadable

  /** The word after the first space of the header. An error reply without an Error-Code
      is read as code 0. */
  function GetStatus(h: string): Status {
    match Find(h, " ", 0)
    case None => Unreadable
    case Some(at) =>
      match Find(h, "\n", at + 1)
      case None => Unreadable
      case Some(fin) =>
        FindExact(h, "\n", at + 1);
        var word := if fin == at + 1 then "" else h[at + 1..fin - 1];
        if word == "OK" then Good
        else match Get(h, "Error-Code") case None => Bad(0) case Some(v) => Bad(Atoi(v))
  }

  // ---------- The whole parse ----------

  datatype Column = Column(kind: VkType, typeName: string, name: string)

  const BLANK := Column(VK_UNKNOW, "", "")

  datatype ResultType = UNKNOW | UPDATE_COUNT | RESULT_SET

  function ResultTypeFromString(s: string): ResultType {
    if s == "Update-Count" then UPDATE_COUNT
    else if s == "Result-Set" then RESULT_SET
    else UNKNOW
  }

  /** The fields of a result that its reply headers set. */
  datatype Info = Info(ok: bool, errorCode: int, resultType: ResultType, statementId: int,
                       updateable: bool, rowCount: nat, rowCountSent: nat, columns: seq<Column>)

  datatype Parse = Accepted(info: Info) | Rejected(info: Info)

  function Blanks(n: nat): (cs: seq<Column>)
    ensures |cs| == n && forall i :: 0 <= i < n ==> cs[i] == BLANK
  {
    seq(n, _ => BLANK)
  }

  /** Types go to the columns in order; surplus ones are dropped. */
  function WithTypes(cs: seq<Column>, tokens: seq<string>): (r: seq<Column>)
    ensures |r| == |cs|
  {
    seq(|cs|, i requires 0 <= i < |cs| =>
      if i < |tokens| then Column(TypeFromString(tokens[i]), tokens[i], cs[i].name) else cs[i])
  }

  /** An alias without its brackets. */
  function Unbracket(alias: string): string {
    if alias != "" && alias[0] == '[' && alias[|alias| - 1] == ']'
    then alias[1..|alias| - 1] else alias
  }

  /** Only a pair of brackets is taken off. */
  lemma Unbracketed(s: string)
    ensures Unbracket("[" + s + "]") == s
    ensures s == "" || s[0] != '[' || s[|s| - 1] != ']' ==> Unbracket(s) == s
  {
    var b := "[" + s + "]";
    assert b[1..|b| - 1] == s;
  }

  function WithNames(cs: seq<Column>, tokens: seq<string>): (r: seq<Column>)
    ensures |r| == |cs|
  {
    seq(|cs|, i requires 0 <= i < |cs| =>
      if i < |tokens| then cs[i].(name := Unbracket(tokens[i])) else cs[i])
  }

  function WithoutLastSpace(s: string): string {
    if s != "" && s[|s| - 1] == ' ' then s[..|s| - 1] else s
  }

  /** One space at the end is taken off, not more. */
  lemma OneSpace(s: string)
    ensures WithoutLastSpace(s + " ") == s
    ensures s == "" || s[|s| - 1] != ' ' ==> WithoutLastSpace(s) == s
  {
    assert (s + " ")[..|s|] == s;
  }

  function AliasTokens(list: string): seq<string> {
    Tokens(Aliases.Rewritten(WithoutLastSpace(list)), '\r')
  }

  /** strstrip as it is used here: only the end of the text is cut, never its first character. */
  function StripEnd(s: string): string {
    if |s| > 1 && IsSpace(s[|s| - 1]) then StripEnd(s[..|s| - 1]) else s
  }

  function AsCount(v: string): nat {
    if Atoi(v) < 0 then 0 else Atoi(v)
  }

  function ReadColumnCount(i: Info, h: string): Parse {
    match Get(h, "Column-Count")
    case None => Accepted(i)
    case Some(v) =>
      var nb := Atoi(v);
      if nb < 0 || nb > MAX_COLUMNS then Rejected(i.(ok := false, errorCode := -1))
      else Accepted(i.(columns := Blanks(nb)))
  }

  function ReadTypes(i: Info, h: string): (j: Info)
    ensures j == i.(columns := j.columns)
  {
    match Get(h, "Column-Types")
    case None => i
    case Some(v) => i.(columns := WithTypes(i.columns, Tokens(v, ' ')))
  }

  function ReadAliases(i: Info, h: string): (j: Info)
    ensures j == i.(columns := j.columns)
  {
    match Get(h, "Column-Aliases-Base64")
    case None => i
    case Some(v) => i.(columns := WithNames(i.columns, AliasTokens(v)))
  }

  function ReadCounts(i: Info, h: string): (j: Info)
    ensures j.ok == i.ok && j.errorCode == i.errorCode
  {
    var i1 := match Get(h, "Row-Count") case None => i case Some(v) => i.(rowCount := AsCount(v));
    var i2 := match Get(h, "Row-Count-Sent") case None => i1 case Some(v) => i1.(rowCountSent := AsCount(v));
    var i3 := match Get(h, "Statement-ID") case None => i2 case Some(v) => i2.(statementId := Atoi(v));
    match Get(h, "Column-Updateability") case None => i3 case Some(v) => i3.(updateable := Contains(v, "Y"))
  }

  /** Several result types mean a multi-query, which is refused. */
  function ReadResultType(i: Info, h: string): Parse {
    match Get(h, "Result-Type")
    case None => Accepted(i)
    case Some(v) =>
      if Contains(StripEnd(v), " ") then Rejected(i)
      else Accepted(i.(resultType := ResultTypeFromString(StripEnd(v))))
  }

  /** A column count is taken from 0 to 32767, columns starting without name and type, and
      anything else ends the parse with code -1. */
  lemma CountChecked(i: Info, h: string, n: int)
    requires -0x8000_0000 <= n < 0x8000_0000 && Get(h, "Column-Count") == Some(Signed(n))
    ensures ReadColumnCount(i, h)
         == if 0 <= n <= 32767 then Accepted(i.(columns := seq(n, _ => Column(VK_UNKNOW, "", ""))))
            else Rejected(i.(ok := false, errorCode := -1))
  {
    hide Get;
    AtoiSigned(n);
    assert n >= 0 ==> Blanks(n) == seq(n, _ => Column(VK_UNKNOW, "", ""));
  }

  /** Each number has its own line, and keeps what it was without one. */
  lemma NumbersApart(i: Info, h: string)
    ensures var j := ReadCounts(i, h);
            && (Get(h, "Row-Count").None? ==> j.rowCount == i.rowCount)
            && (Get(h, "Row-Count-Sent").None? ==> j.rowCountSent == i.rowCountSent)
            && (Get(h, "Statement-ID").None? ==> j.statementId == i.statementId)
            && (Get(h, "Column-Updateability").None? ==> j.updateable == i.updateable)
            && (forall n :: Get(h, "Statement-ID") == Some(Signed(n)) && -0x8000_0000 <= n < 0x8000_0000 ==>
                              j.statementId == n)
            && j.resultType == i.resultType && j.columns == i.columns
  {
    hide Get, Atoi, Contains;
    forall n | -0x8000_0000 <= n < 0x8000_0000
      ensures Atoi(Signed(n)) == n
    {
      AtoiSigned(n);
    }
  }

  /** Row counts below zero count as none. */
  lemma CountRead(n: int)
    requires -0x8000_0000 <= n < 0x8000_0000
    ensures AsCount(Signed(n)) == if n < 0 then 0 else n
  {
    AtoiSigned(n);
  }

  function ReadFields(i: Info, h: string): Parse {
    match ReadColumnCount(i, h)
    case Rejected(j) => Rejected(j)
    case Accepted(j) => ReadResultType(ReadCounts(ReadAliases(ReadTypes(j, h), h), h), h)
  }

  function ParseHeader(i: Info, h: string): Parse {
    match GetStatus(h)
    case Unreadable => Rejected(i.(ok := false))
    case Bad(code) =>
      var j := i.(ok := false, errorCode := code);
      if code != 0 then Rejected(j) else ReadFields(j, h)
    case Good => ReadFields(i.(ok := true, errorCode := 0), h)
  }

  /** The header block of a reply, read as text. */
  function HeaderText(header: seq<byte>): string {
    CStr(Chars(header))
  }

  lemma TextEnds(header: seq<byte>)
    ensures '\0' !in HeaderText(header)
  {
    CStrEnds(Chars(header));
  }
}
