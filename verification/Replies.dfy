/** Reply headers as a server writes them, and what the driver's parser makes of them. */
module Replies {
  import opened Bytes
  import opened Text
  import opened Codec
  import opened Header
  import Aliases
  import Base64
  import opened Stream

  datatype Line = Line(name: string, value: string)

  function RenderLine(l: Line): string {
    l.name + ":" + l.value + "\r\n"
  }

  /** The status line followed by the first n lines. */
  function Upto(status: string, lines: seq<Line>, n: nat): string
    requires n <= |lines|
  {
    if n == 0 then status + "\r\n" else Upto(status, lines, n - 1) + RenderLine(lines[n - 1])
  }

  function Render(status: string, lines: seq<Line>): string {
    Upto(status, lines, |lines|) + "\r\n"
  }

  /** s does not occur in t. */
  ghost predicate Free(t: string, s: string) {
    forall p :: !Occurs(t, s, p)
  }

  /** A section name: not empty, and without the characters that delimit fields. */
  predicate SectionName(s: string) {
    s != "" && ':' !in s && '\r' !in s && '\n' !in s
  }

  /** s is mentioned in no line before line n. */
  ghost predicate Unmentioned(lines: seq<Line>, n: nat, s: string)
    requires n <= |lines|
  {
    forall i :: 0 <= i < n ==> Free(lines[i].name, s) && Free(lines[i].value, s)
  }

  lemma FreeJoin(a: string, c: char, b: string, s: string)
    requires Free(a, s) && Free(b, s) && c !in s
    ensures Free(a + [c] + b, s)
  {
    hide Occurs;
    forall p
      ensures !Occurs(a + [c] + b, s, p)
    {
      if Occurs(a + [c] + b, s, p) {
        OccursAround(a, c, b, s, p);
      }
    }
  }

  lemma FreeEmpty(s: string)
    requires s != ""
    ensures Free("", s)
  {
  }

  /** Up to the newline that ends the first n lines. */
  function Unended(status: string, lines: seq<Line>, n: nat): string
    requires n <= |lines|
  {
    var u := Upto(status, lines, n);
    if u == "" then "" else u[..|u| - 1]
  }

  lemma UptoEnds(status: string, lines: seq<Line>, n: nat)
    requires n <= |lines|
    ensures Upto(status, lines, n) == Unended(status, lines, n) + ['\n']
  {
    var u := Upto(status, lines, n);
    assert |u| >= 2 && u[|u| - 1] == '\n';
  }

  lemma {:induction false} BodyFree(status: string, lines: seq<Line>, n: nat, s: string)
    requires n <= |lines| && SectionName(s) && Free(status, s) && Unmentioned(lines, n, s)
    ensures Free(Unended(status, lines, n), s)
  {
    hide Free, Occurs;
    FreeEmpty(s);
    if n == 0 {
      FreeJoin(status, '\r', "", s);
      assert Unended(status, lines, n) == status + ['\r'] + "";
    } else {
      BodyFree(status, lines, n - 1, s);
      UptoEnds(status, lines, n - 1);
      var before, l := Unended(status, lines, n - 1), lines[n - 1];
      FreeJoin(before, '\n', l.name, s);
      FreeJoin(before + ['\n'] + l.name, ':', l.value, s);
      FreeJoin(before + ['\n'] + l.name + [':'] + l.value, '\r', "", s);
      assert Unended(status, lines, n) == before + ['\n'] + l.name + [':'] + l.value + ['\r'] + "";
    }
  }

  /** What follows line n. */
  lemma {:induction false} UptoSplit(status: string, lines: seq<Line>, n: nat, m: nat) returns (rest: string)
    requires n <= m <= |lines|
    ensures Upto(status, lines, m) == Upto(status, lines, n) + rest
  {
    if n == m {
      rest := "";
    } else {
      var r := UptoSplit(status, lines, n, m - 1);
      rest := r + RenderLine(lines[m - 1]);
    }
  }

  /** Nothing before the end of `front` can hold an occurrence that reaches past it. */
  lemma FirstAfter(front: string, s: string, tail: string)
    requires Free(front, s) && '\n' !in s
    ensures Find(front + ['\n'] + (s + tail), s, 0) == Some(|front| + 1)
  {
    var h := front + ['\n'] + (s + tail);
    var p := |front| + 1;
    assert Occurs(h, s, p) by { assert h[p..p + |s|] == s; }
    forall q | 0 <= q < p
      ensures !Occurs(h, s, q)
    {
      if Occurs(h, s, q) {
        OccursAround(front, '\n', s + tail, s, q);
      }
    }
    FindIs(h, s, 0, p);
  }

  /** The first line whose name starts with the section is the one read, and its value comes
      out whole. */
  lemma GetLine(status: string, lines: seq<Line>, n: nat, s: string)
    requires SectionName(s) && Free(status, s)
    requires n < |lines| && Unmentioned(lines, n, s)
    requires s <= lines[n].name && ':' !in lines[n].name && '\n' !in lines[n].value
    ensures FieldLength(Render(status, lines), s) == Some(|lines[n].value| + 1)
    ensures Get(Render(status, lines), s)
         == Some(if Contains(s, "-Base64") then Unbased(lines[n].value) else lines[n].value)
  {
    hide Get, FieldLength, Unbased, Contains, Free, SectionName, Unmentioned;
    var v, x := lines[n].value, lines[n].name[|s|..];
    assert lines[n].name == s + x;
    BodyFree(status, lines, n, s);
    UptoEnds(status, lines, n);
    var rest := UptoSplit(status, lines, n + 1, |lines|);
    LineRead(Unended(status, lines, n), s, x, v, rest + "\r\n");
    hide Unended;
    LineShape(Unended(status, lines, n) + ['\n'], lines[n], rest, "\r\n");
  }

  lemma LineShape(front: string, l: Line, rest: string, end: string)
    ensures front + RenderLine(l) + rest + end == front + (l.name + (":" + (l.value + "\r\n" + (rest + end))))
  {
  }

  lemma LineRead(front: string, s: string, x: string, v: string, more: string)
    requires SectionName(s) && Free(front, s) && ':' !in x && '\n' !in v
    ensures var h := front + ['\n'] + (s + x + (":" + (v + "\r\n" + more)));
            && Get(h, s) == Some(if Contains(s, "-Base64") then Unbased(v) else v)
            && FieldLength(h, s) == Some(|v| + 1)
  {
    hide Free, Find, Unbased, Contains;
    var tail := x + (":" + (v + "\r\n" + more));
    FirstAfter(front, s, tail);
    var a := front + ['\n'] + s;
    ColonAfter(a, x, v + "\r\n" + more);
    ValueAfter(a + x, v, more);
    ValueText(a + x, v, more);
    assert front + ['\n'] + (s + tail) == (a + x) + ":" + (v + "\r\n" + more);
    assert s + x + (":" + (v + "\r\n" + more)) == s + tail;
  }

  /** A line that ends without a carriage return loses the last character of its value. */
  lemma BareLineRead(front: string, s: string, x: string, v: string, more: string)
    requires SectionName(s) && Free(front, s) && ':' !in x && '\n' !in v && !Contains(s, "-Base64")
    ensures Get(front + ['\n'] + (s + x + (":" + (v + "\n" + more))), s) == Some(if v == "" then "" else v[..|v| - 1])
  {
    hide Free, Find, Contains;
    var a := front + ['\n'] + s;
    var w := v + "\n" + more;
    var h := (a + x) + ":" + w;
    FirstAfter(front, s, x + (":" + w));
    assert s + x + (":" + w) == s + (x + (":" + w));
    assert front + ['\n'] + (s + (x + (":" + w))) == h;
    ColonAfter(a, x, w);
    FindChar(w, '\n', 0, |v|);
    EndShift((a + x) + ":", w, |a + x| + 1, |v|);
    assert h == ((a + x) + ":") + v + ("\n" + more);
    if v != "" {
      Middle((a + x) + ":", v[..|v| - 1], v[|v| - 1..] + ("\n" + more));
      assert h == ((a + x) + ":") + v[..|v| - 1] + (v[|v| - 1..] + ("\n" + more));
    }
  }

  lemma ColonAfter(a: string, x: string, w: string)
    requires ':' !in x
    ensures Find((a + x) + ":" + w, ":", |a|) == Some(|a + x|)
  {
    FindChar((a + x) + ":" + w, ':', |a|, |a + x|);
  }

  lemma FindChar(h: string, c: char, from: nat, p: nat)
    requires from <= p < |h| && h[p] == c && forall q :: from <= q < p ==> h[q] != c
    ensures Find(h, [c], from) == Some(p)
  {
    assert h[p..p + 1] == [c];
    forall q | from <= q < p
      ensures !Occurs(h, [c], q)
    {
      assert h[q..q + 1] == [h[q]];
    }
    FindIs(h, [c], from, p);
  }

  /** Searching past a prefix is searching the rest. */
  lemma {:induction false} FindShift(pre: string, w: string, s: string, k: nat)
    requires Find(w, s, k).Some?
    ensures Find(pre + w, s, |pre| + k) == Some(|pre| + Find(w, s, k).value)
    decreases |w| - k
  {
    var p := |pre| + k;
    assert (pre + w)[p..p + |s|] == w[k..k + |s|];
    if !Occurs(w, s, k) {
      FindShift(pre, w, s, k + 1);
    }
  }

  lemma LineEnd(v: string, b: string)
    requires '\n' !in v
    ensures Find(v + "\r\n" + b, "\n", 0) == Some(|v| + 1)
  {
    var w := v + "\r\n" + b;
    assert w[|v|] == '\r' && w[|v| + 1] == '\n' && w[..|v|] == v;
    FindChar(w, '\n', 0, |v| + 1);
  }

  lemma ValueAfter(a: string, v: string, b: string)
    requires '\n' !in v
    ensures var h := a + ":" + (v + "\r\n" + b);
            && Find(h, ":", |a|) == Some(|a|)
            && Find(h, "\n", |a| + 1).Some? && Find(h, "\n", |a| + 1).value == |a| + |v| + 2
  {
    var w := v + "\r\n" + b;
    var h := a + ":" + w;
    hide Find;
    LineEnd(v, b);
    EndShift(a + ":", w, |a| + 1, |v| + 1);
    FindChar(h, ':', |a|, |a|);
  }

  lemma ValueText(a: string, v: string, b: string)
    ensures (a + ":" + (v + "\r\n" + b))[|a| + 1..|a| + |v| + 1] == v
  {
    Middle(a + ":", v, "\r\n" + b);
    assert a + ":" + (v + "\r\n" + b) == a + ":" + v + ("\r\n" + b);
  }

  lemma EndShift(pre: string, w: string, n: nat, p: nat)
    requires n == |pre| && Find(w, "\n", 0) == Some(p)
    ensures Find(pre + w, "\n", n) == Some(n + p)
  {
    FindShift(pre, w, "\n", 0);
  }

  lemma Middle(a: string, m: string, b: string)
    ensures (a + m + b)[|a|..|a| + |m|] == m
  {
  }

  lemma GetAbsent(status: string, lines: seq<Line>, s: string)
    requires SectionName(s) && Free(status, s) && Unmentioned(lines, |lines|, s)
    ensures Get(Render(status, lines), s) == None && FieldLength(Render(status, lines), s) == None
  {
    hide Free, Occurs;
    var n := |lines|;
    BodyFree(status, lines, n, s);
    UptoEnds(status, lines, n);
    FreeEmpty(s);
    var b := Unended(status, lines, n);
    FreeJoin(b, '\n', "", s);
    FreeJoin(b + ['\n'] + "", '\r', "", s);
    FreeJoin(b + ['\n'] + "" + ['\r'] + "", '\n', "", s);
    assert Render(status, lines) == b + ['\n'] + "" + ['\r'] + "" + ['\n'] + "";
    assert Free(Render(status, lines), s);
    FreeFind(Render(status, lines), s);
  }

  lemma FreeFind(h: string, s: string)
    requires Free(h, s)
    ensures Find(h, s, 0) == None
  {
    FindNone(h, s, 0);
  }

  /** A text without some character of s does not contain s. */
  lemma FreeByChar(t: string, s: string, c: char)
    requires c in s && c !in t
    ensures Free(t, s)
  {
    var i :| 0 <= i < |s| && s[i] == c;
    forall p: nat
      ensures !Occurs(t, s, p)
    {
      assert p + |s| <= |t| ==> t[p..p + |s|][i] == t[p + i] && t[p + i] != c;
    }
  }

  // ---------- Column metadata ----------

  function TypeList(types: seq<VkType>): string
    requires types != []
  {
    if |types| == 1 then StringFromType(types[0]) else StringFromType(types[0]) + " " + TypeList(types[1..])
  }

  function TypeNames(types: seq<VkType>): (r: seq<string>)
    ensures |r| == |types| && forall i :: 0 <= i < |types| ==> r[i] == StringFromType(types[i])
  {
    seq(|types|, i requires 0 <= i < |types| => StringFromType(types[i]))
  }

  lemma TypeNameShape(t: VkType)
    ensures StringFromType(t) != "" && ' ' !in StringFromType(t)
    ensures '-' !in StringFromType(t) && '\n' !in StringFromType(t) && |StringFromType(t)| <= 12
  {
  }

  lemma {:induction false} TypeTokens(types: seq<VkType>)
    requires types != []
    ensures Tokens(TypeList(types), ' ') == TypeNames(types)
  {
    hide Tokens, StringFromType;
    TypeNameShape(types[0]);
    var u := StringFromType(types[0]);
    if |types| == 1 {
      TokensStep(u, ' ', "");
      assert TypeNames(types) == [u];
    } else {
      TypeTokens(types[1..]);
      TokensStep(u, ' ', TypeList(types[1..]));
      assert TypeNames(types) == [u] + TypeNames(types[1..]);
    }
  }

  /** A column name as the server sends it and the driver's fixed field can hold it. */
  ghost predicate NameOk(name: string) {
    Aliases.Proper(name) && Narrow(name) && '\0' !in name && |name| <= 254
  }

  ghost predicate NamesOk(names: seq<string>) {
    forall i :: 0 <= i < |names| ==> NameOk(names[i])
  }

  lemma {:induction false} JoinedPlain(names: seq<string>)
    requires names != [] && NamesOk(names)
    ensures Narrow(Aliases.Joined(names)) && '\0' !in Aliases.Joined(names)
    ensures var j := Aliases.Joined(names); |j| >= 2 && j[|j| - 1] == ']'
  {
    assert NameOk(names[0]);
    hide Aliases.Proper;
    if |names| > 1 {
      assert NamesOk(names[1..]);
      JoinedPlain(names[1..]);
    }
  }

  function AliasValue(names: seq<string>, spaced: bool): string
    requires names != [] && Narrow(Aliases.Joined(names))
  {
    Base64.Encode(Raw(Aliases.Joined(names) + if spaced then " " else ""))
  }

  /** The alias value comes back as the bracketed names, with or without a final space. */
  lemma AliasValueTokens(names: seq<string>, spaced: bool)
    requires names != [] && NamesOk(names) && Aliases.Separable(names)
    ensures Narrow(Aliases.Joined(names))
    ensures AliasTokens(Unbased(AliasValue(names, spaced))) == Aliases.BracketAll(names)
  {
    hide Base64.Encode, Base64.Decode, Tokens, Aliases.Rewritten;
    JoinedPlain(names);
    var list := Aliases.Joined(names) + if spaced then " " else "";
    Base64.RoundTrip(Raw(list), false);
    assert Unbased(AliasValue(names, spaced)) == list;
    assert WithoutLastSpace(list) == Aliases.Joined(names);
    assert Aliases.AllProper(names) by {
      assert forall i :: 0 <= i < |names| ==> NameOk(names[i]);
    }
    Aliases.AliasesSplitIff(names);
  }

  /** The columns a result describes. */
  ghost predicate Describes(cs: seq<Column>, types: seq<VkType>, names: seq<string>) {
    && |cs| == |types| == |names|
    && forall i :: 0 <= i < |cs| ==> cs[i].kind == types[i] && cs[i].name == names[i]
  }

  lemma ColumnsDescribed(types: seq<VkType>, names: seq<string>)
    requires |types| == |names|
    requires forall i :: 0 <= i < |types| ==> types[i] != VK_TIME && types[i] != VK_TEXT
    ensures var cs := WithNames(WithTypes(Blanks(|types|), TypeNames(types)), Aliases.BracketAll(names));
            Describes(cs, types, names) && (NamesOk(names) ==> NamesFit(cs))
  {
    hide TypeFromString, StringFromType;
    forall i | 0 <= i < |types|
      ensures TypeFromString(StringFromType(types[i])) == types[i]
      ensures Unbracket(Aliases.Bracketed(names[i])) == names[i]
      ensures |TypeNames(types)[i]| < NAME_BUFFER && (NamesOk(names) ==> |names[i]| < NAME_BUFFER)
    {
      TypeRoundTrip(types[i]);
      TypeNameShape(types[i]);
      assert NamesOk(names) ==> NameOk(names[i]);
    }
  }

  /** Line n is the first to mention section s, and is the line for it. */
  ghost predicate LineFor(status: string, lines: seq<Line>, n: nat, s: string, value: string) {
    && SectionName(s) && Free(status, s)
    && n < |lines| && Unmentioned(lines, n, s)
    && s <= lines[n].name && ':' !in lines[n].name && lines[n].value == value && '\n' !in value
  }

  lemma PlainSection(s: string)
    requires 'B' !in s
    ensures !Contains(s, "-Base64")
  {
    FreeByChar(s, "-Base64", 'B');
    FreeFind(s, "-Base64");
  }

  lemma BasedSection()
    ensures Contains("Column-Aliases-Base64", "-Base64")
  {
    FindExact("Column-Aliases-Base64", "-Base64", 0);
    assert "Column-Aliases-Base64"[14..21] == "-Base64";
    assert Occurs("Column-Aliases-Base64", "-Base64", 14);
  }

  lemma GetPlain(status: string, lines: seq<Line>, n: nat, s: string, value: string)
    requires LineFor(status, lines, n, s, value) && 'B' !in s
    ensures Get(Render(status, lines), s) == Some(value)
    ensures FieldLength(Render(status, lines), s) == Some(|value| + 1)
  {
    hide Get, FieldLength, Free, Render;
    PlainSection(s);
    GetLine(status, lines, n, s);
  }

  /** Whatever other lines the header has and wherever the three metadata lines stand, the
      columns come out with the described types and names, in order. */
  lemma MetadataRecovered(status: string, lines: seq<Line>, nc: nat, nt: nat, na: nat,
                          types: seq<VkType>, names: seq<string>, spaced: bool, i: Info)
    requires 0 < |types| == |names| <= MAX_COLUMNS
    requires forall k :: 0 <= k < |types| ==> types[k] != VK_TIME && types[k] != VK_TEXT
    requires NamesOk(names) && Aliases.Separable(names) && Narrow(Aliases.Joined(names))
    requires |TypeList(types)| + 1 < TYPES_BUFFER
    requires LineFor(status, lines, nc, "Column-Count", Decimal(|types|))
    requires LineFor(status, lines, nt, "Column-Types", TypeList(types))
    requires LineFor(status, lines, na, "Column-Aliases-Base64", AliasValue(names, spaced))
    ensures var h := Render(status, lines);
            var p := ReadColumnCount(i, h);
            && p.Accepted?
            && var j := ReadAliases(ReadTypes(p.info, h), h);
               && Describes(j.columns, types, names) && j == i.(columns := j.columns)
               && FieldFits(h, "Column-Count", FIELD_BUFFER) && FieldFits(h, "Column-Types", TYPES_BUFFER)
               && NamesFit(j.columns)
  {
    CountShort(|types|);
    GetPlain(status, lines, nc, "Column-Count", Decimal(|types|));
    AtoiDecimal(|types|);
    GetPlain(status, lines, nt, "Column-Types", TypeList(types));
    TypeTokens(types);
    BasedSection();
    GetLine(status, lines, na, "Column-Aliases-Base64");
    AliasValueTokens(names, spaced);
    ColumnsDescribed(types, names);
  }

  lemma CountShort(n: nat)
    requires n < 0x8000_0000
    ensures |Decimal(n)| <= 11
  {
    SignedLength(n);
  }

  // ---------- The status line ----------

  lemma StatusFirst(status: string, lines: seq<Line>) returns (rest: string)
    ensures Render(status, lines) == status + "\r\n" + rest
  {
    var more := UptoSplit(status, lines, 0, |lines|);
    rest := more + "\r\n";
    assert Upto(status, lines, 0) + more + "\r\n" == status + "\r\n" + rest;
  }

  /** The status is the word behind the first space. */
  lemma StatusRead(tag: string, word: string, lines: seq<Line>)
    requires ' ' !in tag && '\n' !in tag && '\n' !in word
    ensures var h := Render(tag + " " + word, lines);
            GetStatus(h) == if word == "OK" then Good
                            else match Get(h, "Error-Code") case None => Bad(0) case Some(v) => Bad(Atoi(v))
  {
    var rest := StatusFirst(tag + " " + word, lines);
    var h := Render(tag + " " + word, lines);
    hide Find, Render, Get;
    var n := |tag|;
    var w := word + "\r\n" + rest;
    assert h == (tag + " ") + w;
    FindChar(h, ' ', 0, n);
    LineEnd(word, rest);
    EndShift(tag + " ", w, n + 1, |word| + 1);
    Middle(tag + " ", word, "\r\n" + rest);
    assert h == tag + " " + word + ("\r\n" + rest);
    assert h[n + 1..n + 2 + |word| - 1] == word;
  }

  /** A Base64 value in clear ends at its first NUL. */
  lemma ClearEnds(a: seq<byte>, b: seq<byte>)
    requires 0 !in a
    ensures Unbased(Base64.Encode(a + [0] + b)) == Chars(a) && Unbased(Base64.Encode(a)) == Chars(a)
  {
    hide Base64.Encode, Base64.Decode;
    Base64.RoundTrip(a + [0] + b, false);
    Base64.RoundTrip(a, false);
    var s := Chars(a + [0] + b);
    CStrCut(s, |a|);
    assert s[..|a|] == Chars(a);
  }

  /** A value that is not Base64 is left as it is. */
  lemma NotBased(q: seq<Base64.sextet>, rest: string)
    requires |q| % 4 == 1
    ensures var v := Base64.Chars(q) + "=" + rest; Unbased(v) == v
  {
    hide Base64.Decode;
    Base64.LoneSextet(q, rest, false);
  }

  lemma CharAbsent(h: string, c: char, from: nat)
    requires forall i :: from <= i < |h| ==> h[i] != c
    ensures Find(h, [c], from) == None
  {
    forall q | from <= q
      ensures !Occurs(h, [c], q)
    {
      assert q < |h| ==> h[q..q + 1] == [h[q]];
    }
    FindNone(h, [c], from);
  }

  /** A header without a space, or without a line end behind the first, is refused, and nothing
      but the status changes. */
  lemma NoStatus(i: Info, a: string, b: string)
    requires ' ' !in a && '\n' !in b
    ensures ParseHeader(i, a) == Rejected(i.(ok := false))
    ensures ParseHeader(i, a + " " + b) == Rejected(i.(ok := false))
  {
    hide Find, ReadFields;
    CharAbsent(a, ' ', 0);
    var h := a + " " + b;
    FindChar(h, ' ', 0, |a|);
    CharAbsent(h, '\n', |a| + 1);
  }

  /** An error reply leaves its code and nothing else behind. */
  lemma ErrorReply(tag: string, word: string, lines: seq<Line>, n: nat, i: Info)
    requires ' ' !in tag && '\n' !in tag && '\n' !in word && word != "OK"
    requires Free(tag + " " + word, "Error-Code") && n < |lines| && Unmentioned(lines, n, "Error-Code")
    requires |word| + 1 < STATUS_BUFFER && |lines[n].value| + 1 < STATUS_BUFFER
    requires FieldFits(Render(tag + " " + word, lines), "Error-Description", ERROR_BUFFER)
    requires "Error-Code" <= lines[n].name && ':' !in lines[n].name && '\n' !in lines[n].value
             && Atoi(lines[n].value) != 0
    ensures ParseHeader(i, Render(tag + " " + word, lines))
         == Rejected(i.(ok := false, errorCode := Atoi(lines[n].value)))
  {
    hide Render, Get, GetStatus, ReadFields, Free, Unmentioned, Atoi;
    StatusRead(tag, word, lines);
    GetPlain(tag + " " + word, lines, n, "Error-Code", lines[n].value);
  }

  // ---------- The header block on the wire ----------

  /** No line break is followed by a carriage return before the end. */
  ghost predicate NoBlankLine(t: string) {
    forall p :: 0 <= p < |t| - 1 && t[p] == '\n' ==> t[p + 1] != '\r'
  }

  lemma LineNoBlank(t: string, l: Line)
    requires NoBlankLine(t)
    requires l.name != "" && l.name[0] != '\r' && '\n' !in l.name && '\n' !in l.value
    ensures NoBlankLine(t + RenderLine(l))
  {
    var u := t + RenderLine(l);
    assert u == t + ((l.name + ":" + l.value + "\r") + "\n");
    var line := l.name + ":" + l.value + "\r";
    assert '\n' !in line && line[0] == l.name[0];
    forall p | |t| <= p < |u| - 1
      ensures u[p] != '\n'
    {
      assert u[p] == line[p - |t|];
    }
    forall p | 0 <= p < |u| - 1 && u[p] == '\n'
      ensures u[p + 1] != '\r'
    {
      if p + 1 == |t| {
        assert u[p + 1] == line[0];
      }
      assert p + 1 < |t| ==> t[p] == u[p] && t[p + 1] == u[p + 1];
    }
  }

  lemma OnlyEnd(t: string, h: string, b: seq<byte>)
    requires NoBlankLine(t) && |t| >= 2 && t[|t| - 2] == '\r' && t[|t| - 1] == '\n' && h == t + "\r\n"
    requires |b| == |h| < MAX_HEADER && forall i :: 0 <= i < |b| ==> b[i] as char == h[i]
    ensures ReadHeader(b) == Complete(|b|)
  {
    assert EndsAt(b, |b|) by { assert b[|b| - 4..|b|] == [b[|b| - 4], b[|b| - 3], b[|b| - 2], b[|b| - 1]]; }
    forall m | 0 <= m < |b|
      ensures !EndsAt(b, m)
    {
      if m >= 4 {
        var w := b[m - 4..m];
        assert w[1] == b[m - 3] && w[2] == b[m - 2];
        assert t[m - 3] == '\n' ==> t[m - 2] != '\r';
      }
    }
    HeaderExact(b, |b|);
  }
}
