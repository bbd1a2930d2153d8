/** Column aliases: the server joins bracketed names with spaces; the driver turns the
    separating spaces into carriage returns in place and splits there. */
module Aliases {
  import opened Text

  const SEPARATOR := "] ["
  const CR := '\r'

  // ---------- Rewriting the separators ----------

  /** The space at k stands between ']' and '[' and the ']' is not the second of a pair;
      at the first two positions of the text the pair is not looked for. */
  predicate SplitsAt(s: string, k: nat) {
    1 <= k < |s| - 1 && s[k - 1] == ']' && s[k] == ' ' && s[k + 1] == '['
    && (k - 1 <= 1 || s[k - 2] != ']')
  }

  /** s with the splitting spaces up to position d replaced. */
  function Partly(s: string, d: nat): (r: string)
    ensures |r| == |s|
    ensures forall k :: 0 <= k < |s| ==> r[k] == if k <= d && SplitsAt(s, k) then CR else s[k]
  {
    seq(|s|, k requires 0 <= k < |s| => if k <= d && SplitsAt(s, k) then CR else s[k])
  }

  function Rewritten(s: string): (r: string)
    ensures |r| == |s|
    ensures forall k :: 0 <= k < |s| ==> r[k] == if SplitsAt(s, k) then CR else s[k]
  {
    Partly(s, |s|)
  }

  lemma SeparatorAt(t: string, p: nat)
    ensures Occurs(t, SEPARATOR, p) <==> p + 3 <= |t| && t[p] == ']' && t[p + 1] == ' ' && t[p + 2] == '['
  {
    if p + 3 <= |t| {
      assert t[p..p + 3] == [t[p], t[p + 1], t[p + 2]];
    }
  }

  /** No occurrence in the partly rewritten text between loc and q means nothing splits there. */
  lemma NothingBetween(s: string, t: string, loc: nat, d: nat, q: nat)
    requires loc <= d <= loc + 1 && t == Partly(s, d)
    requires forall p :: loc <= p < q ==> !Occurs(t, SEPARATOR, p)
    ensures forall k :: d < k <= q && k < |s| ==> !SplitsAt(s, k)
  {
    forall k | d < k <= q && k < |s|
      ensures !SplitsAt(s, k)
    {
      SeparatorAt(t, k - 1);
      assert k < |s| - 1 ==> t[k] == s[k] && t[k + 1] == s[k + 1] && (s[k - 1] == ']' ==> t[k - 1] == ']');
    }
  }

  /** The in-place loop: it ends on every string and makes exactly the rewriting above. */
  method AliasReplace(list: array<char>)
    modifies list
    ensures list[..] == Rewritten(old(list[..]))
  {
    hide Partly, SplitsAt, Rewritten, Find;
    ghost var s := list[..];
    var loc := 0;
    ghost var d := 0;
    NothingYet(s);
    var found := Find(list[..], SEPARATOR, loc);
    while found.Some?
      invariant loc <= d <= loc + 1 && (d == loc + 1 ==> SplitsAt(s, d))
      invariant list[..] == Partly(s, d)
      invariant found == Find(list[..], SEPARATOR, loc)
      decreases |s| - d
    {
      ghost var t := list[..];
      FindExact(t, SEPARATOR, loc);
      SeparatorAt(t, found.value);
      NothingBetween(s, t, loc, d, found.value);
      OnlyOneMore(s, d, found.value + 1, t);
      loc := found.value;
      d := loc + 1;
      if loc > 1 {
        if list[loc - 1] != ']' {
          list[loc + 1] := CR;
        } else {
          loc := loc + 1;
        }
      } else {
        list[loc + 1] := CR;
      }
      found := Find(list[..], SEPARATOR, loc);
    }
    FindExact(list[..], SEPARATOR, loc);
    NothingBetween(s, list[..], loc, d, |s|);
    AllDone(s, d);
  }

  /** At the very start a pair of brackets is split as well. */
  lemma StartSplits(rest: string)
    ensures Rewritten("]] [" + rest)[..4] == "]]\r["
  {
    var r := Rewritten("]] [" + rest);
    assert r[..4] == [r[0], r[1], r[2], r[3]];
  }

  lemma NothingYet(s: string)
    ensures Partly(s, 0) == s
  {
  }

  lemma AllDone(s: string, d: nat)
    requires forall k :: d < k < |s| ==> !SplitsAt(s, k)
    ensures Partly(s, d) == Rewritten(s)
  {
  }

  /** Advancing to d changes at most the character at d. */
  lemma OnlyOneMore(s: string, from: nat, d: nat, t: string)
    requires from <= d < |s| - 1 && t == Partly(s, from)
    requires forall k :: from < k < d ==> !SplitsAt(s, k)
    requires from == d ==> SplitsAt(s, d)
    requires d >= 1 && t[d - 1] == ']' && t[d] == ' ' && t[d + 1] == '['
    ensures from < d
    ensures SplitsAt(s, d) <==> d - 1 <= 1 || t[d - 2] != ']'
    ensures Partly(s, d) == if SplitsAt(s, d) then t[d := CR] else t
  {
    assert s[d] == ' ' && s[d - 1] == ']' && s[d + 1] == '[';
  }

  // ---------- Joining and splitting names ----------

  /** A name as it travels: every ']' doubled. */
  function Escape(raw: string): string {
    if raw == "" then ""
    else if raw[0] == ']' then "]]" + Escape(raw[1..])
    else [raw[0]] + Escape(raw[1..])
  }

  function Bracketed(name: string): string {
    "[" + name + "]"
  }

  function Joined(names: seq<string>): string
    requires names != []
  {
    if |names| == 1 then Bracketed(names[0]) else Bracketed(names[0]) + " " + Joined(names[1..])
  }

  predicate EndsInBracket(name: string) {
    name != "" && name[|name| - 1] == ']'
  }

  /** Escaped, and without the character the pieces are split at. */
  ghost predicate Proper(name: string) {
    CR !in name && exists raw :: name == Escape(raw)
  }

  ghost predicate AllProper(names: seq<string>) {
    forall i :: 0 <= i < |names| ==> Proper(names[i])
  }

  /** In an escaped name the last ']' of a run has another one before it. */
  lemma {:induction false} EscapePairs(raw: string, i: nat)
    requires i < |Escape(raw)| && Escape(raw)[i] == ']'
    requires i + 1 == |Escape(raw)| || Escape(raw)[i + 1] != ']'
    ensures i >= 1 && Escape(raw)[i - 1] == ']'
  {
    var skip := if raw[0] == ']' then 2 else 1;
    var tail := Escape(raw[1..]);
    assert Escape(raw)[skip..] == tail;
    if i >= skip {
      assert tail[i - skip] == Escape(raw)[i];
      EscapePairs(raw[1..], i - skip);
    }
  }

  /** What the rewriting makes of a joined list: a separator is kept as a space exactly
      when the name before it ends in ']'. */
  function Split(names: seq<string>): string
    requires names != []
  {
    if |names| == 1 then Bracketed(names[0])
    else Bracketed(names[0]) + [if EndsInBracket(names[0]) then ' ' else CR] + Split(names[1..])
  }

  /** Nothing splits inside a bracketed escaped name, whatever follows. */
  lemma InsideName(name: string, s: string, k: nat)
    requires Proper(name) && k <= |name| && Bracketed(name) <= s
    ensures !SplitsAt(s, k)
  {
    var u := Bracketed(name);
    var raw :| name == Escape(raw);
    assert k >= 1 ==> s[k - 1] == u[k - 1] && s[k] == u[k];
    if k >= 2 && name[k - 2] == ']' && name[k - 1] != ']' {
      EscapePairs(raw, k - 2);
      assert s[k - 2] == u[k - 2] == name[k - 3];
    }
  }

  lemma LastName(name: string)
    requires Proper(name)
    ensures Rewritten(Bracketed(name)) == Bracketed(name)
  {
    var u := Bracketed(name);
    forall k | 0 <= k < |u|
      ensures !SplitsAt(u, k)
    {
      if k <= |name| {
        InsideName(name, u, k);
      }
    }
  }

  lemma FirstName(name: string, v: string)
    requires Proper(name) && v != "" && v[0] == '['
    ensures Rewritten(Bracketed(name) + " " + v)
         == Bracketed(name) + [if EndsInBracket(name) then ' ' else CR] + Rewritten(v)
  {
    hide SplitsAt, Proper, Rewritten;
    var u := Bracketed(name);
    var s := u + " " + v;
    forall k | 0 <= k < |u|
      ensures !SplitsAt(s, k)
    {
      Inside(name, v, k);
    }
    forall j | 0 <= j < |v|
      ensures SplitsAt(s, |u| + 1 + j) == SplitsAt(v, j)
    {
      Shifted(u, v, j);
    }
    Joint(name, v);
    RewrittenParts(u, v);
  }

  /** Nothing splits inside the first name. */
  lemma Inside(name: string, v: string, k: nat)
    requires Proper(name) && v != "" && v[0] == '[' && k < |Bracketed(name)|
    ensures !SplitsAt(Bracketed(name) + " " + v, k)
  {
    if k < |name| + 1 {
      InsideName(name, Bracketed(name) + " " + v, k);
    }
  }

  /** The space behind the first name splits unless the name ends in ']'. */
  lemma Joint(name: string, v: string)
    requires v != "" && v[0] == '['
    ensures SplitsAt(Bracketed(name) + " " + v, |Bracketed(name)|) <==> !EndsInBracket(name)
  {
    var u := Bracketed(name);
    var s, n := u + " " + v, |u|;
    assert s[n - 1] == ']' && s[n] == ' ' && s[n + 1] == '[';
    assert n >= 3 ==> s[n - 2] == name[n - 3];
  }

  lemma RewrittenParts(u: string, v: string)
    requires forall k :: 0 <= k < |u| ==> !SplitsAt(u + " " + v, k)
    requires forall j :: 0 <= j < |v| ==> SplitsAt(u + " " + v, |u| + 1 + j) == SplitsAt(v, j)
    ensures Rewritten(u + " " + v) == u + [if SplitsAt(u + " " + v, |u|) then CR else ' '] + Rewritten(v)
  {
    hide SplitsAt;
    var s := u + " " + v;
    var w := u + [if SplitsAt(s, |u|) then CR else ' '] + Rewritten(v);
    forall k | 0 <= k < |s|
      ensures Rewritten(s)[k] == w[k]
    {
      if k > |u| {
        assert SplitsAt(s, |u| + 1 + (k - |u| - 1)) == SplitsAt(v, k - |u| - 1);
      }
    }
  }

  /** Positions inside the rest of the list split as they do in the rest alone. */
  lemma Shifted(u: string, v: string, j: nat)
    requires |u| >= 2 && j < |v| && v[0] == '['
    ensures SplitsAt(u + " " + v, |u| + 1 + j) == SplitsAt(v, j)
  {
    var s := u + " " + v;
    var k := |u| + 1 + j;
    assert s[k] == v[j];
    if j >= 1 {
      assert s[k - 1] == v[j - 1];
    }
    if j >= 2 {
      assert s[k - 2] == v[j - 2];
    }
    if j + 1 < |v| {
      assert s[k + 1] == v[j + 1];
    }
  }

  lemma {:induction false} RewrittenJoined(names: seq<string>)
    requires names != [] && AllProper(names)
    ensures Rewritten(Joined(names)) == Split(names)
  {
    hide Rewritten, Proper, EndsInBracket;
    assert Proper(names[0]);
    if |names| == 1 {
      LastName(names[0]);
    } else {
      var v := Joined(names[1..]);
      assert v[0] == '[' by { assert |names[1..]| >= 1; }
      FirstName(names[0], v);
      RewrittenJoined(names[1..]);
    }
  }

  /** No name but the last ends in ']'. */
  predicate Separable(names: seq<string>) {
    forall i :: 0 <= i < |names| - 1 ==> !EndsInBracket(names[i])
  }

  function BracketAll(names: seq<string>): (r: seq<string>)
    ensures |r| == |names| && forall i :: 0 <= i < |names| ==> r[i] == Bracketed(names[i])
  {
    seq(|names|, i requires 0 <= i < |names| => Bracketed(names[i]))
  }

  lemma {:induction false} SplitTokens(names: seq<string>)
    requires names != [] && AllProper(names) && Separable(names)
    ensures Tokens(Split(names), CR) == BracketAll(names)
  {
    hide Tokens, EndsInBracket;
    var u := Bracketed(names[0]);
    assert Proper(names[0]) && CR !in u;
    if |names| == 1 {
      TokensStep(u, CR, "");
      assert BracketAll(names) == [u];
    } else {
      assert !EndsInBracket(names[0]);
      forall i | 0 <= i < |names[1..]|
        ensures Proper(names[1..][i]) && (i < |names[1..]| - 1 ==> !EndsInBracket(names[1..][i]))
      {
        assert names[1..][i] == names[i + 1] && Proper(names[i + 1]);
      }
      SplitTokens(names[1..]);
      TokensStep(u, CR, Split(names[1..]));
      assert BracketAll(names) == [u] + BracketAll(names[1..]);
    }
  }

  /** One carriage return per separator that was recognised. */
  lemma {:induction false} SplitCount(names: seq<string>)
    requires names != [] && AllProper(names)
    ensures Count(Split(names), CR) <= |names| - 1
    ensures !Separable(names) ==> Count(Split(names), CR) < |names| - 1
  {
    hide Count, Escape;
    var u := Bracketed(names[0]);
    assert Proper(names[0]);
    CountAbsent(u, CR);
    if |names| > 1 {
      var sep := if EndsInBracket(names[0]) then ' ' else CR;
      var rest := names[1..];
      assert AllProper(rest);
      SplitCount(rest);
      CountConcat(u + [sep], Split(rest), CR);
      CountConcat(u, [sep], CR);
      CountOne(sep);
      if !Separable(names) && sep == CR {
        var i :| 0 <= i < |names| - 1 && EndsInBracket(names[i]);
        assert rest[i - 1] == names[i];
        assert !Separable(rest);
      }
    }
  }

  lemma CountOne(c: char)
    ensures Count([c], CR) == if c == CR then 1 else 0
  {
    assert [c][1..] == "";
  }

  /** The driver recovers the joined names exactly when none but the last ends in ']'. */
  lemma AliasesSplitIff(names: seq<string>)
    requires names != [] && AllProper(names)
    ensures Tokens(Rewritten(Joined(names)), CR) == BracketAll(names) <==> Separable(names)
  {
    hide Tokens, Rewritten, Joined, Split, AllProper;
    RewrittenJoined(names);
    if Separable(names) {
      SplitTokens(names);
    } else {
      SplitCount(names);
      TokensBound(Split(names), CR);
    }
  }

  /** "a]" (sent as "a]]") in front of "b": the two aliases arrive as one. */
  lemma AliasesMerged()
    ensures Rewritten(Joined([Escape("a]"), Escape("b")])) == "[a]]] [b]"
  {
    assert Escape("") == "";
    assert "b"[1..] == "" && "]"[1..] == "" && "a]"[1..] == "]";
    assert Escape("b") == "b" && Escape("a]") == "a]]";
    var names := ["a]]", "b"];
    assert names[1..] == ["b"];
    assert Joined(names) == "[a]]] [b]";
    assert forall k :: 0 <= k < 9 ==> !SplitsAt("[a]]] [b]", k);
  }
}
