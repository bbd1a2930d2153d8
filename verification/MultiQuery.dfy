/** Does a request hold more than one statement? A scan with three flags, and what it decides
    on texts made of plain characters, bracketed names and quoted strings. */
module MultiQuery {

  datatype State = State(inCol: bool, inStr: bool, finFirst: bool, found: bool)

  const START := State(false, false, false, false)

  const QUOTE := '\''

  /** One character c, after the text `before`. */
  function Step(st: State, before: string, c: char): State {
    if st.found then st
    else if c == '[' then st.(inCol := st.inCol || !st.inStr)
    else if c == ']' then
      if st.inStr then st
      else if st.inCol then st.(inCol := false)
      else st.(inCol := |before| > 1 && before[|before| - 1] == ']')
    else if c == QUOTE then if st.inCol then st else st.(inStr := !st.inStr)
    else if c == ';' then if st.inCol || st.inStr then st else st.(finFirst := true)
    else if st.inCol || st.inStr || c == ' ' then st
    else st.(found := st.finFirst)
  }

  function Run(st: State, before: string, s: string): State
    decreases |s|
  {
    if s == "" then st else Run(Step(st, before, s[0]), before + [s[0]], s[1..])
  }

  lemma {:induction false} RunAppend(st: State, before: string, x: string, y: string)
    ensures Run(st, before, x + y) == Run(Run(st, before, x), before + x, y)
    decreases |x|
  {
    if x == "" {
      assert x + y == y && before + x == before;
    } else {
      assert (x + y)[1..] == x[1..] + y;
      assert before + [x[0]] + x[1..] == before + x;
      RunAppend(Step(st, before, x[0]), before + [x[0]], x[1..], y);
    }
  }

  /** On no text are both flags set. */
  lemma {:induction false} NeverBoth(st: State, before: string, s: string)
    requires !(st.inCol && st.inStr)
    ensures !(Run(st, before, s).inCol && Run(st, before, s).inStr)
    decreases |s|
  {
    if s != "" {
      NeverBoth(Step(st, before, s[0]), before + [s[0]], s[1..]);
    }
  }

  /** The scan of a request; it stops at the first character of a second statement. */
  method IsMultiQuery(request: string) returns (multi: bool)
    ensures multi == Run(START, "", request).found
  {
    var inCol, inStr, finFirst := false, false, false;
    if |request| < 1 {
      return false;
    }
    for i := 0 to |request|
      invariant Run(START, "", request) == Run(State(inCol, inStr, finFirst, false), request[..i], request[i..])
      invariant !(inCol && inStr)
    {
      var car := request[i];
      assert request[..i + 1] == request[..i] + [car];
      if car == '[' {
        if !inStr && !inCol {
          inCol := true;
        }
      } else if car == ']' {
        if inStr {
        } else if inCol {
          inCol := false;
        } else if i > 1 {
          inCol := request[i - 1] == ']';
        }
      } else if car == QUOTE {
        if !inCol {
          inStr := !inStr;
        }
      } else if car == ';' {
        if !inCol && !inStr {
          finFirst := true;
        }
      } else if !inCol && !inStr && car != ' ' && finFirst {
        FoundStays(State(inCol, inStr, finFirst, true), request[..i + 1], request[i + 1..]);
        return true;
      }
    }
    multi := false;
  }

  lemma {:induction false} FoundStays(st: State, before: string, s: string)
    requires st.found
    ensures Run(st, before, s) == st
    decreases |s|
  {
    if s != "" {
      FoundStays(st, before + [s[0]], s[1..]);
    }
  }

  /** In literal characters: two statements, one with an end, and marks inside a string and a
      name. */
  lemma Samples()
    ensures Run(START, "", "a;b").found && !Run(START, "", "a; ").found
    ensures !Run(START, "", "';b'").found && !Run(START, "", "[;b]").found
  {
    var a, e := "a;b", "a; ";
    assert a[1..] == ";b" && ";b"[1..] == "b" && "b"[1..] == "";
    assert e[1..] == "; " && "; "[1..] == " " && " "[1..] == "";
    SampleQuoted();
    SampleNamed();
  }

  /** A pair of stray brackets opens a name, but not at the very start of the request. */
  lemma StrayBrackets()
    ensures !Run(START, "", "a]];b").found && Run(START, "", "]];b").found
  {
    var s, t := "a]];b", "]];b";
    assert s[1..] == t && t[1..] == "];b" && "];b"[1..] == ";b" && ";b"[1..] == "b" && "b"[1..] == "";
    assert "" + ['a'] == "a" && "a" + [']'] == "a]" && "a]" + [']'] == "a]]" && "a]]" + [';'] == "a]];";
    assert "" + [']'] == "]" && "]" + [']'] == "]]" && "]]" + [';'] == "]];";
  }

  lemma SampleQuoted()
    ensures !Run(START, "", "';b'").found
  {
    var s := "';b'";
    assert s[1..] == ";b'" && ";b'"[1..] == "b'" && "b'"[1..] == "'" && "'"[1..] == "";
  }

  lemma SampleNamed()
    ensures !Run(START, "", "[;b]").found
  {
    var s := "[;b]";
    assert s[1..] == ";b]" && ";b]"[1..] == "b]" && "b]"[1..] == "]" && "]"[1..] == "";
  }

  // ---------- Texts of statements ----------

  datatype Piece = Plain(c: char) | Semicolon | Name(name: string) | Quoted(text: string)

  predicate Special(c: char) {
    c in {'[', ']', '\'', ';'}
  }

  /** Occurrences of c are written twice. */
  function Doubled(s: string, c: char): string {
    if s == "" then "" else (if s[0] == c then [c, c] else [s[0]]) + Doubled(s[1..], c)
  }

  function Written(p: Piece): string {
    match p
    case Plain(c) => [c]
    case Semicolon => ";"
    case Name(name) => "[" + Doubled(name, ']') + "]"
    case Quoted(text) => "'" + Doubled(text, '\'') + "'"
  }

  function Request(ps: seq<Piece>): string {
    if ps == [] then "" else Written(ps[0]) + Request(ps[1..])
  }

  predicate Proper(ps: seq<Piece>) {
    forall i :: 0 <= i < |ps| && ps[i].Plain? ==> !Special(ps[i].c)
  }

  predicate Starts(p: Piece) {
    p.Plain? && p.c != ' '
  }

  /** What a piece makes of the flags when none is set at its start. */
  function Passed(fin: bool, p: Piece): State {
    State(false, false, fin || p == Semicolon, fin && Starts(p))
  }

  lemma {:induction false} InName(fin: bool, before: string, s: string)
    requires before != ""
    ensures Run(State(true, false, fin, false), before, Doubled(s, ']')) == State(true, false, fin, false)
    decreases |s|
  {
    var st := State(true, false, fin, false);
    if s != "" {
      InName(fin, before + (if s[0] == ']' then "]]" else [s[0]]), s[1..]);
      RunAppend(st, before, if s[0] == ']' then "]]" else [s[0]], Doubled(s[1..], ']'));
      if s[0] == ']' {
        RunAppend(st, before, "]", "]");
      }
    }
  }

  lemma {:induction false} InString(fin: bool, before: string, s: string)
    ensures Run(State(false, true, fin, false), before, Doubled(s, QUOTE)) == State(false, true, fin, false)
    decreases |s|
  {
    var st := State(false, true, fin, false);
    if s != "" {
      InString(fin, before + (if s[0] == QUOTE then [QUOTE, QUOTE] else [s[0]]), s[1..]);
      RunAppend(st, before, if s[0] == QUOTE then [QUOTE, QUOTE] else [s[0]], Doubled(s[1..], QUOTE));
      if s[0] == QUOTE {
        RunAppend(st, before, [QUOTE], [QUOTE]);
      }
    }
  }

  lemma PieceRun(fin: bool, before: string, p: Piece)
    requires p.Plain? ==> !Special(p.c)
    ensures Run(State(false, false, fin, false), before, Written(p)) == Passed(fin, p)
  {
    var st := State(false, false, fin, false);
    match p
    case Name(name) =>
      var inside := Doubled(name, ']');
      RunAppend(st, before, "[" + inside, "]");
      RunAppend(st, before, "[", inside);
      InName(fin, before + "[", name);
    case Quoted(text) =>
      var inside := Doubled(text, QUOTE);
      RunAppend(st, before, [QUOTE] + inside, [QUOTE]);
      RunAppend(st, before, [QUOTE], inside);
      InString(fin, before + [QUOTE], text);
    case _ =>
  }

  /** Some statement starts among ps once a semicolon has been seen. */
  ghost predicate SecondStarts(ps: seq<Piece>, seen: bool) {
    exists j :: 0 <= j < |ps| && Starts(ps[j]) && (seen || exists i :: 0 <= i < j && ps[i] == Semicolon)
  }

  lemma {:induction false} RequestRun(fin: bool, before: string, ps: seq<Piece>)
    requires Proper(ps)
    ensures Run(State(false, false, fin, false), before, Request(ps)).found <==> SecondStarts(ps, fin)
    decreases |ps|
  {
    if ps != [] {
      var p, rest := ps[0], ps[1..];
      var st := State(false, false, fin, false);
      PieceRun(fin, before, p);
      RunAppend(st, before, Written(p), Request(rest));
      if fin && Starts(p) {
        FoundStays(Passed(fin, p), before + Written(p), Request(rest));
      } else {
        RequestRun(fin || p == Semicolon, before + Written(p), rest);
        Shift(ps, fin);
      }
    }
  }

  lemma Shift(ps: seq<Piece>, seen: bool)
    requires ps != [] && !(seen && Starts(ps[0]))
    ensures SecondStarts(ps, seen) <==> SecondStarts(ps[1..], seen || ps[0] == Semicolon)
  {
    var rest := ps[1..];
    if SecondStarts(ps, seen) {
      var j :| 0 <= j < |ps| && Starts(ps[j]) && (seen || exists i :: 0 <= i < j && ps[i] == Semicolon);
      assert rest[j - 1] == ps[j];
      if !(seen || ps[0] == Semicolon) {
        var i :| 0 <= i < j && ps[i] == Semicolon;
        assert rest[i - 1] == Semicolon;
      }
    }
    if SecondStarts(rest, seen || ps[0] == Semicolon) {
      var j :| 0 <= j < |rest| && Starts(rest[j])
               && ((seen || ps[0] == Semicolon) || exists i :: 0 <= i < j && rest[i] == Semicolon);
      assert ps[j + 1] == rest[j];
      if !seen && ps[0] != Semicolon {
        var i :| 0 <= i < j && rest[i] == Semicolon;
        assert ps[i + 1] == Semicolon;
      }
    }
  }

  /** The answer is yes exactly when a semicolon outside names and strings is followed, also
      outside them, by a plain character other than a space. */
  lemma MultiExactly(ps: seq<Piece>)
    requires Proper(ps)
    ensures Run(START, "", Request(ps)).found
       <==> exists i, j :: 0 <= i < j < |ps| && ps[i] == Semicolon && Starts(ps[j])
  {
    RequestRun(false, "", ps);
  }
}
