/** List parameters of a query: each `?` bound to a list becomes a group of `?`, one list at
    a time until none is left. */
module Expansion {
  import opened Text

  datatype Param = Leaf(value: string) | Many(items: seq<Param>)

  const MARK := '?'

  // ---------- One pass, by definition ----------

  /** k marks separated by commas, in parentheses. */
  function Group(k: nat): string {
    "(" + Marked(k) + ")"
  }

  function Marked(k: nat): string {
    if k == 0 then "" else if k == 1 then "?" else "?," + Marked(k - 1)
  }

  /** A leaf is a mark, a list the group of its items. */
  function Shown(p: Param): string {
    match p
    case Leaf(_) => "?"
    case Many(ps) => "(" + ShownAll(ps) + ")"
  }

  function ShownAll(ps: seq<Param>): string {
    if ps == [] then "" else if |ps| == 1 then Shown(ps[0]) else Shown(ps[0]) + "," + ShownAll(ps[1..])
  }

  /** Each mark shows the next parameter; marks beyond the parameters stay. */
  function Expand(query: string, params: seq<Param>): string {
    if query == "" then ""
    else if query[0] != MARK then [query[0]] + Expand(query[1..], params)
    else if params == [] then "?" + Expand(query[1..], [])
    else Shown(params[0]) + Expand(query[1..], params[1..])
  }

  function Leaves(p: Param): seq<Param> {
    match p
    case Leaf(_) => [p]
    case Many(ps) => AllLeaves(ps)
  }

  /** The leaves in order. */
  function AllLeaves(ps: seq<Param>): seq<Param> {
    if ps == [] then [] else Leaves(ps[0]) + AllLeaves(ps[1..])
  }

  /** The number of list nodes. */
  function Lists(p: Param): nat {
    match p
    case Leaf(_) => 0
    case Many(ps) => 1 + AllLists(ps)
  }

  function AllLists(ps: seq<Param>): nat {
    if ps == [] then 0 else Lists(ps[0]) + AllLists(ps[1..])
  }

  function Marks(query: string): nat {
    if query == "" then 0 else (if query[0] == MARK then 1 else 0) + Marks(query[1..])
  }

  /** A group in characters: marks and commas in turn between parentheses. */
  lemma {:induction false} GroupShape(k: nat)
    ensures |Marked(k)| == if k == 0 then 0 else 2 * k - 1
    ensures forall i :: 0 <= i < |Marked(k)| ==> Marked(k)[i] == if i % 2 == 0 then '?' else ','
    ensures Group(k) == "(" + Marked(k) + ")"
  {
    if k > 1 {
      GroupShape(k - 1);
      var m := Marked(k - 1);
      assert Marked(k) == "?," + m;
      hide Marked;
      forall i | 0 <= i < |m| + 2
        ensures ("?," + m)[i] == if i % 2 == 0 then '?' else ','
      {
        assert i >= 2 ==> ("?," + m)[i] == m[i - 2] && (i - 2) % 2 == i % 2;
      }
    }
  }

  /** A list of k leaves shows as the group of k marks. */
  lemma {:induction false} FlatShown(ps: seq<Param>)
    requires forall i :: 0 <= i < |ps| ==> ps[i].Leaf?
    ensures ShownAll(ps) == Marked(|ps|) && Shown(Many(ps)) == Group(|ps|)
  {
    if |ps| > 1 {
      FlatShown(ps[1..]);
    }
  }

  /** Text with as many marks as parameters is expanded by itself. */
  lemma {:induction false} ExpandSplit(a: string, b: string, p: seq<Param>, q: seq<Param>)
    requires Marks(a) == |p|
    ensures Expand(a + b, p + q) == Expand(a, p) + Expand(b, q)
  {
    if a == "" {
      assert a + b == b && p + q == q;
    } else {
      assert (a + b)[1..] == a[1..] + b;
      if a[0] == MARK {
        assert (p + q)[1..] == p[1..] + q;
        ExpandSplit(a[1..], b, p[1..], q);
      } else {
        ExpandSplit(a[1..], b, p, q);
      }
    }
  }

  // ---------- Replacing the n-th mark ----------

  function Replaced(source: string, with: string, n: nat): string
    requires n > 0
  {
    if source == "" then source
    else if source[0] != MARK then [source[0]] + Replaced(source[1..], with, n)
    else if n == 1 then with + source[1..]
    else "?" + Replaced(source[1..], with, n - 1)
  }

  /** The query after one list, at idx, has been broken out. */
  function Broken(params: seq<Param>, idx: nat): seq<Param>
    requires idx < |params| && params[idx].Many?
  {
    params[..idx] + params[idx].items + params[idx + 1..]
  }

  function Step(query: string, params: seq<Param>, idx: nat): string
    requires idx < |params| && params[idx].Many?
  {
    Replaced(query, Group(|params[idx].items|), idx + 1)
  }

  lemma ExpandPlain(c: char, rest: string, params: seq<Param>)
    requires c != MARK
    ensures Expand([c] + rest, params) == [c] + Expand(rest, params)
  {
    assert ([c] + rest)[1..] == rest;
  }

  lemma ExpandMark(rest: string, p: Param, more: seq<Param>)
    ensures Expand("?" + rest, [p] + more) == Shown(p) + Expand(rest, more)
  {
    assert ("?" + rest)[1..] == rest && ([p] + more)[1..] == more;
  }

  /** A group followed by more text shows its items, then the rest. */
  lemma {:induction false} ExpandMarked(items: seq<Param>, rest: string, more: seq<Param>)
    ensures Expand(Marked(|items|) + rest, items + more) == ShownAll(items) + Expand(rest, more)
  {
    hide Expand, Shown;
    var k := |items|;
    if k == 0 {
      assert items + more == more && "" + rest == rest;
    } else {
      var tail := items[1..];
      assert items + more == [items[0]] + (tail + more);
      if k == 1 {
        ExpandMark(rest, items[0], more);
        assert tail + more == more;
      } else {
        var q := Marked(k - 1) + rest;
        assert Marked(k) + rest == "?" + ("," + q);
        ExpandMark("," + q, items[0], tail + more);
        ExpandPlain(',', q, tail + more);
        ExpandMarked(tail, rest, more);
      }
    }
  }

  lemma ExpandGroup(items: seq<Param>, rest: string, more: seq<Param>)
    ensures Expand(Group(|items|) + rest, items + more) == Shown(Many(items)) + Expand(rest, more)
  {
    hide Expand, Marked, ShownAll;
    assert Group(|items|) + rest == "(" + (Marked(|items|) + (")" + rest));
    ExpandPlain('(', Marked(|items|) + (")" + rest), items + more);
    ExpandMarked(items, ")" + rest, more);
    ExpandPlain(')', rest, more);
  }

  /** Breaking one list out changes nothing about the one-pass expansion. */
  lemma {:induction false} StepExpands(query: string, params: seq<Param>, idx: nat)
    requires idx < |params| && params[idx].Many?
    requires forall i :: 0 <= i < idx ==> params[i].Leaf?
    ensures Expand(Step(query, params, idx), Broken(params, idx)) == Expand(query, params)
  {
    var group := Group(|params[idx].items|);
    if query == "" {
    } else if query[0] != MARK {
      StepExpands(query[1..], params, idx);
    } else if idx == 0 {
      ExpandGroup(params[0].items, query[1..], params[1..]);
      assert Broken(params, 0) == params[0].items + params[1..];
    } else {
      StepExpands(query[1..], params[1..], idx - 1);
      assert params[1..][idx - 1] == params[idx];
      assert Broken(params, idx)[1..] == Broken(params[1..], idx - 1);
      assert Step(query, params, idx) == "?" + Step(query[1..], params[1..], idx - 1);
    }
  }

  predicate NoLists(params: seq<Param>) {
    forall i :: 0 <= i < |params| ==> params[i].Leaf?
  }

  /** With leaves only there is nothing to expand. */
  lemma {:induction false} LeavesStay(query: string, params: seq<Param>)
    requires NoLists(params)
    ensures Expand(query, params) == query
  {
    if query != "" {
      var c, rest := query[0], query[1..];
      assert query == [c] + rest;
      if c == MARK && params != [] {
        assert Shown(params[0]) == "?";
        LeavesStay(rest, params[1..]);
      } else {
        LeavesStay(rest, params);
      }
    }
  }

  lemma {:induction false} LeavesOnly(params: seq<Param>)
    requires NoLists(params)
    ensures AllLeaves(params) == params
  {
    if params != [] {
      LeavesOnly(params[1..]);
    }
  }

  lemma {:induction false} LeavesAppend(a: seq<Param>, b: seq<Param>)
    ensures AllLeaves(a + b) == AllLeaves(a) + AllLeaves(b)
    ensures AllLists(a + b) == AllLists(a) + AllLists(b)
  {
    if a == [] {
      assert a + b == b;
    } else {
      assert (a + b)[1..] == a[1..] + b;
      LeavesAppend(a[1..], b);
    }
  }

  /** It keeps the leaves and their order, and takes away one list node. */
  lemma BrokenKeeps(params: seq<Param>, idx: nat)
    requires idx < |params| && params[idx].Many?
    ensures AllLeaves(Broken(params, idx)) == AllLeaves(params)
    ensures AllLists(Broken(params, idx)) == AllLists(params) - 1
  {
    hide AllLeaves, AllLists;
    var a, m, b := params[..idx], params[idx].items, params[idx + 1..];
    assert params == a + ([params[idx]] + b);
    LeavesAppend(a, [params[idx]] + b);
    LeavesAppend(a + m, b);
    LeavesAppend(a, m);
    OneMany(params[idx], b);
    Regroup(AllLeaves(a), AllLeaves(m), AllLeaves(b));
  }

  lemma Regroup(x: seq<Param>, y: seq<Param>, z: seq<Param>)
    ensures x + y + z == x + (y + z)
  {
  }

  lemma OneMany(p: Param, b: seq<Param>)
    requires p.Many?
    ensures AllLeaves([p] + b) == AllLeaves(p.items) + AllLeaves(b)
    ensures AllLists([p] + b) == 1 + AllLists(p.items) + AllLists(b)
  {
    assert ([p] + b)[1..] == b;
  }

  lemma {:induction false} ReplacedMarks(query: string, with: string, n: nat)
    requires n > 0
    ensures Marks(Replaced(query, with, n))
         == if n <= Marks(query) then Marks(query) - 1 + Marks(with) else Marks(query)
  {
    if query != "" {
      if query[0] != MARK {
        ReplacedMarks(query[1..], with, n);
      } else if n == 1 {
        MarksAppend(with, query[1..]);
      } else {
        ReplacedMarks(query[1..], with, n - 1);
      }
    }
  }

  lemma {:induction false} MarksAppend(a: string, b: string)
    ensures Marks(a + b) == Marks(a) + Marks(b)
  {
    if a == "" {
      assert a + b == b;
    } else {
      assert (a + b)[1..] == a[1..] + b;
      MarksAppend(a[1..], b);
    }
  }

  lemma {:induction false} MarkedMarks(k: nat)
    ensures Marks(Marked(k)) == k && Marks(Group(k)) == k
  {
    if k > 1 {
      MarkedMarks(k - 1);
      assert Marked(k)[1..][1..] == Marked(k - 1);
    }
    MarksAppend("(" + Marked(k), ")");
    assert ("(" + Marked(k))[1..] == Marked(k);
  }

  /** Marks and parameters grow alike exactly when the list had a mark, or one item. */
  lemma StepBalance(query: string, params: seq<Param>, idx: nat)
    requires idx < |params| && params[idx].Many?
    ensures Marks(Step(query, params, idx)) - |Broken(params, idx)| == Marks(query) - |params|
       <==> idx < Marks(query) || |params[idx].items| == 1
  {
    var k := |params[idx].items|;
    ReplacedMarks(query, Group(k), idx + 1);
    MarkedMarks(k);
  }

  /** A shown parameter has a mark for each leaf. */
  lemma {:induction false} ShownMarks(p: Param)
    ensures Marks(Shown(p)) == |Leaves(p)|
  {
    match p
    case Leaf(_) =>
      assert "?"[1..] == "";
    case Many(ps) =>
      ShownAllMarks(ps);
      assert ("(" + ShownAll(ps))[1..] == ShownAll(ps);
      MarksAppend("(" + ShownAll(ps), ")");
  }

  lemma {:induction false} ShownAllMarks(ps: seq<Param>)
    ensures Marks(ShownAll(ps)) == |AllLeaves(ps)|
  {
    if ps != [] {
      ShownMarks(ps[0]);
      ShownAllMarks(ps[1..]);
      if |ps| > 1 {
        MarksAppend(Shown(ps[0]) + ",", ShownAll(ps[1..]));
        MarksAppend(Shown(ps[0]), ",");
      }
    }
  }

  /** The expansion has the marks left over, and one for each leaf of a parameter that had a
      mark. */
  lemma {:induction false} ExpandMarks(query: string, params: seq<Param>)
    ensures Marks(Expand(query, params))
         == if Marks(query) >= |params| then Marks(query) - |params| + |AllLeaves(params)|
            else |AllLeaves(params[..Marks(query)])|
  {
    if query == "" {
      assert params[..0] == [];
    } else if query[0] != MARK {
      ExpandMarks(query[1..], params);
    } else if params == [] {
      ExpandMarks(query[1..], []);
    } else {
      ExpandMarks(query[1..], params[1..]);
      ShownMarks(params[0]);
      MarksAppend(Shown(params[0]), Expand(query[1..], params[1..]));
      if Marks(query) < |params| {
        assert params[..Marks(query)][1..] == params[1..][..Marks(query) - 1];
      }
    }
  }

  /** The surplus of marks over parameters is kept exactly when every parameter has a mark,
      or those without one have as many leaves as they are. */
  lemma Balance(query: string, params: seq<Param>)
    ensures Marks(Expand(query, params)) - |AllLeaves(params)| == Marks(query) - |params|
       <==> Marks(query) >= |params| || |AllLeaves(params[Marks(query)..])| == |params| - Marks(query)
  {
    hide Expand, AllLeaves, Marks;
    ExpandMarks(query, params);
    var k := Marks(query);
    if k < |params| {
      assert params == params[..k] + params[k..];
      LeavesAppend(params[..k], params[k..]);
    }
  }

  /** One mark short, the pair (a, b) adds a parameter and no mark. */
  lemma Unbalanced(a: Param, b: Param, c: Param)
    requires a.Leaf? && b.Leaf? && c.Leaf?
    ensures var params := [a, Many([b, c])];
            Marks("x = ?") == 1 && Marks(Expand("x = ?", params)) - |AllLeaves(params)| == -2
  {
    var params := [a, Many([b, c])];
    assert Marks("x = ?") == 1 by {
      MarksAppend("x = ", "?");
      Unmarked("x = ");
    }
    ExpandMarks("x = ?", params);
    assert params[..1] == [a] && params == [a] + ([Many([b, c])] + []);
    LeavesOnly([a]);
    LeavesOnly([b, c]);
    LeavesAppend([a], [Many([b, c])] + []);
    OneMany(Many([b, c]), []);
  }

  // ---------- The program's loops ----------

  lemma {:induction false} ReplacedThere(source: string, with: string, n: nat, i: nat)
    requires n > 0 && i < |source| && source[i] == MARK && Marks(source[..i]) == n - 1
    ensures Replaced(source, with, n) == source[..i] + with + source[i + 1..]
  {
    if i > 0 {
      assert source[..i][1..] == source[1..][..i - 1];
      ReplacedThere(source[1..], with, if source[0] == MARK then n - 1 else n, i - 1);
    }
  }

  lemma {:induction false} ReplacedNowhere(source: string, with: string, n: nat)
    requires Marks(source) < n
    ensures Replaced(source, with, n) == source
  {
    if source != "" {
      ReplacedNowhere(source[1..], with, if source[0] == MARK then n - 1 else n);
    }
  }

  lemma {:induction false} Unmarked(s: string)
    requires forall i :: 0 <= i < |s| ==> s[i] != MARK
    ensures Marks(s) == 0
  {
    if s != "" {
      Unmarked(s[1..]);
    }
  }

  /** Searching on from behind a mark adds exactly the mark found. */
  lemma FindMark(source: string, from: nat)
    requires from <= |source|
    ensures match Find(source, "?", from)
            case None => Marks(source) == Marks(source[..from])
            case Some(p) => p < |source| && source[p] == MARK && Marks(source[..p]) == Marks(source[..from])
                            && Marks(source[..p + 1]) == Marks(source[..from]) + 1
  {
    hide Marks;
    FindExact(source, "?", from);
    var end := match Find(source, "?", from) case None => |source| case Some(p) => p;
    forall i | from <= i < end
      ensures source[i] != MARK
    {
      assert source[i] == MARK ==> Occurs(source, "?", i);
    }
    Unmarked(source[from..end]);
    assert source[..end] == source[..from] + source[from..end];
    MarksAppend(source[..from], source[from..end]);
    if end < |source| {
      assert source[..end + 1] == source[..end] + "?";
      MarksAppend(source[..end], "?");
      OneMark();
    } else {
      assert source[..end] == source;
    }
  }

  lemma OneMark()
    ensures Marks("?") == 1
  {
    assert "?"[1..] == "";
  }

  /** The n-th mark replaced; the text as it is when there are fewer. */
  method ReplaceNth(source: string, with: string, n: nat) returns (result: string)
    requires n > 0
    ensures result == Replaced(source, with, n)
  {
    hide Replaced;
    var i := -1;
    assert source[..0] == "";
    for m := 0 to n
      invariant -1 <= i < |source| && Marks(source[..i + 1]) == m
      invariant m > 0 ==> i >= 0 && source[i] == MARK && Marks(source[..i]) == m - 1
    {
      FindMark(source, i + 1);
      match Find(source, "?", i + 1)
      case None =>
        ReplacedNowhere(source, with, n);
        return source;
      case Some(p) =>
        i := p;
    }
    ReplacedThere(source, with, n, i);
    result := source[..i] + with + source[i + 1..];
  }

  /** Passes over the parameters, one list broken out in each, until a pass finds none: the
      query is the one-pass expansion and the parameters are all the leaves in order. */
  method ExpandLists(query: string, params: seq<Param>) returns (q: string, ps: seq<Param>)
    ensures q == Expand(query, params)
    ensures ps == AllLeaves(params) && NoLists(ps)
  {
    hide Expand, AllLeaves, AllLists;
    q, ps := query, params;
    while true
      invariant Expand(q, ps) == Expand(query, params) && AllLeaves(ps) == AllLeaves(params)
      decreases AllLists(ps)
    {
      var found := false;
      for idx := 0 to |ps|
        invariant !found && forall i :: 0 <= i < idx ==> ps[i].Leaf?
      {
        if ps[idx].Many? {
          found := true;
          StepExpands(q, ps, idx);
          BrokenKeeps(ps, idx);
          q := ReplaceNth(q, Group(|ps[idx].items|), idx + 1);
          ps := ps[..idx] + ps[idx].items + ps[idx + 1..];
          break;
        }
      }
      if !found {
        break;
      }
    }
    LeavesStay(q, ps);
    LeavesOnly(ps);
  }
}
