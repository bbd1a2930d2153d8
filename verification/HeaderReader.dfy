/** The loops of the header parser: copying a field out, cutting a list into tokens and
    storing them column by column. */
module HeaderReader {
  import opened Bytes
  import opened Text
  import opened Header
  import Aliases
  import Base64

  /** snprintf of the text from loc on: at most n bytes with the NUL, none beyond the buffer. */
  method CopyText(msg: string, loc: nat, n: nat, valeur: array<char>)
    requires loc + n <= |msg| && n < valeur.Length
    modifies valeur
    ensures n > 0 ==> valeur[..n] == msg[loc..loc + n - 1] + "\0"
  {
    if n > 0 {
      forall i | 0 <= i < n - 1 {
        valeur[i] := msg[loc + i];
      }
      valeur[n - 1] := '\0';
    }
  }

  /** Copies a field's value into the caller's buffer, where Base64 sections are then
      decoded. Every write is inside the buffer. */
  method GetField(msg: string, section: string, valeur: array<char>) returns (found: bool)
    requires FieldFits(msg, section, valeur.Length) && '\0' !in msg
    modifies valeur
    ensures found <==> Get(msg, section).Some?
    ensures found ==> CStr(valeur[..]) == Get(msg, section).value
  {
    hide Find, Contains, Unbased, CStr;
    var loc := Find(msg, section, 0);
    if loc == None {
      return false;
    }
    loc := Find(msg, ":", loc.value + |section|);
    if loc == None {
      return false;
    }
    var fin := Find(msg, "\n", loc.value + 1);
    if fin == None {
      return false;
    }
    FindExact(msg, "\n", loc.value + 1);
    var start, n := loc.value + 1, fin.value - loc.value - 1;
    CopyText(msg, start, n, valeur);
    ghost var value := if n == 0 then "" else msg[start..start + n - 1];
    valeur[n] := '\0';
    Terminated(valeur[..], if n == 0 then 0 else n - 1, value);
    if Contains(section, "-Base64") {
      DecodeInPlace(valeur, value);
    }
    found := true;
  }

  /** A buffer that starts with a text and a NUL holds the text. */
  lemma Terminated(s: string, n: nat, value: string)
    requires n < |s| && s[n] == '\0' && s[..n] == value && '\0' !in value
    ensures CStr(s) == value
  {
    CStrCut(s, n);
  }

  /** The decoded bytes go back into the buffer, up to their first NUL, and are terminated;
      a value that does not decode stays. */
  method DecodeInPlace(valeur: array<char>, ghost value: string)
    requires CStr(valeur[..]) == value && |value| < valeur.Length
    modifies valeur
    ensures CStr(valeur[..]) == Unbased(value)
  {
    hide Base64.Decode, CStr;
    var text := CStr(valeur[..]);
    var decoded, length := Base64.DecodeBuffer(text, false);
    if decoded == null {
      return;
    }
    var clear := Chars(decoded[..length]);
    CStrEnds(clear);
    var k := |CStr(clear)|;
    forall i | 0 <= i < length {
      valeur[i] := if i < k then clear[i] else '\0';
    }
    valeur[length] := '\0';
    CStrEnds(CStr(clear));
    Terminated(valeur[..], k, CStr(clear));
  }

  /** A field read into a buffer of the caller's size. A longer line would be written past
      its end; the model gives the buffer the room. */
  method ReadField(msg: string, section: string, size: nat) returns (v: Option<string>)
    requires '\0' !in msg
    ensures v == Get(msg, section)
  {
    hide Get, FieldLength;
    var n := FieldLength(msg, section);
    var valeur := new char[if n.Some? && n.value >= size then n.value + 1 else size];
    var found := GetField(msg, section, valeur);
    v := if found then Some(CStr(valeur[..])) else None;
  }

  /** strtok: the next token at or after pos, and where the search goes on. */
  method NextToken(s: string, sep: char, pos: nat) returns (token: Option<string>, next: nat)
    requires pos <= |s|
    ensures pos <= next <= |s|
    ensures token == None ==> Tokens(s[pos..], sep) == []
    ensures token.Some? ==> pos < next <= |s| && Tokens(s[pos..], sep) == [token.value] + Tokens(s[next..], sep)
  {
    var start := pos;
    while start < |s| && s[start] == sep
      invariant pos <= start <= |s|
      invariant Tokens(s[start..], sep) == Tokens(s[pos..], sep)
    {
      assert s[start..][1..] == s[start + 1..];
      start := start + 1;
    }
    if start == |s| {
      return None, start;
    }
    var head := Head(s[start..], sep);
    assert s[start..][|head|..] == s[start + |head|..];
    return Some(head), start + |head|;
  }

  lemma TypesStep(cs: seq<Column>, done: seq<string>, t: string)
    ensures WithTypes(cs, done + [t]) ==
            if |done| < |cs| then WithTypes(cs, done)[|done| := Column(TypeFromString(t), t, cs[|done|].name)]
            else WithTypes(cs, done)
  {
    hide TypeFromString;
  }

  /** The Column-Types list, token by token; surplus tokens are dropped. */
  method TypesInto(cs: seq<Column>, list: string) returns (columns: seq<Column>)
    ensures columns == WithTypes(cs, Tokens(list, ' '))
  {
    hide TypeFromString, Tokens;
    columns := cs;
    assert columns == WithTypes(cs, []);
    var num, pos := 0, 0;
    ghost var done: seq<string> := [];
    assert list[0..] == list;
    var column;
    column, pos := NextToken(list, ' ', pos);
    while column.Some?
      invariant pos <= |list| && num == |done| && |columns| == |cs|
      invariant columns == WithTypes(cs, done)
      invariant Tokens(list, ' ') == done + (if column.Some? then [column.value] + Tokens(list[pos..], ' ') else [])
      decreases |list| - pos, column.Some?
    {
      TypesStep(cs, done, column.value);
      if num < |columns| {
        columns := columns[num := Column(TypeFromString(column.value), column.value, columns[num].name)];
      }
      done, num := done + [column.value], num + 1;
      column, pos := NextToken(list, ' ', pos);
    }
  }

  lemma NamesStep(cs: seq<Column>, done: seq<string>, t: string)
    ensures WithNames(cs, done + [t]) ==
            if |done| < |cs| then WithNames(cs, done)[|done| := cs[|done|].(name := Unbracket(t))]
            else WithNames(cs, done)
  {
    hide Unbracket;
  }

  /** The decoded alias list: its last space dropped, its separators rewritten in place, its
      pieces stored without their brackets. */
  method NamesInto(cs: seq<Column>, list: string) returns (columns: seq<Column>)
    ensures columns == WithNames(cs, AliasTokens(list))
  {
    hide Unbracket, Tokens;
    var aliases := WithoutLastSpace(list);
    var buffer := new char[|aliases|](i requires 0 <= i < |aliases| => aliases[i]);
    assert buffer[..] == aliases;
    Aliases.AliasReplace(buffer);
    var text := buffer[..];
    columns := cs;
    assert columns == WithNames(cs, []);
    var num, pos := 0, 0;
    ghost var done: seq<string> := [];
    assert text[0..] == text;
    var alias;
    alias, pos := NextToken(text, '\r', pos);
    while alias.Some?
      invariant pos <= |text| && num == |done| && |columns| == |cs|
      invariant columns == WithNames(cs, done)
      invariant Tokens(text, '\r') == done + (if alias.Some? then [alias.value] + Tokens(text[pos..], '\r') else [])
      decreases |text| - pos, alias.Some?
    {
      NamesStep(cs, done, alias.value);
      if num < |columns| {
        columns := columns[num := columns[num].(name := Unbracket(alias.value))];
      }
      done, num := done + [alias.value], num + 1;
      alias, pos := NextToken(text, '\r', pos);
    }
  }
}
