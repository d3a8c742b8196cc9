/**
 * `changer/utils.py`: which function every source line of a parsed module
 * belongs to (`get_file_line_by_functions`), and the functions a module
 * declares at its top level or inside its classes (`get_functions_from_ast`,
 * `get_all_functions`). A function is reported as its `FunctionDef` node.
 */
module ChangerUtils {
  import opened Wrappers
  import opened Strings
  import opened PyAst

  // ---------------------------------------------------------------------------
  // The line-to-function map
  // ---------------------------------------------------------------------------

  /** `getattr(node, "lineno", None)` is truthy: the node has a line number and it is not 0. */
  predicate Lined(c: Node) {
    c.line.Some? && c.line.value > 0
  }

  /** The function a child node of a node inside `active` belongs to: itself if it is a function
      definition, `active` otherwise. */
  function Owner(c: Node, active: Option<Node>): Option<Node> {
    if c.kind.FunctionDef? then Some(c) else active
  }

  /** The map's key for a lined node: `str(node.lineno)`. */
  function Key(c: Node): string
    requires Lined(c)
  {
    NatStr(c.line.value)
  }

  type Entry = (string, Option<Node>)
  type Item = (Node, Option<Node>)

  /** The map writes for the children `cs` of a popped node, in order. */
  function Entries(cs: seq<Node>, active: Option<Node>): seq<Entry>
    decreases cs
  {
    if cs == [] then []
    else (if Lined(cs[0]) then [(Key(cs[0]), Owner(cs[0], active))] else []) + Entries(cs[1..], active)
  }

  /** The stack items pushed for the children `cs` of a popped node, in order. */
  function Pushed(cs: seq<Node>, active: Option<Node>): seq<Item>
    decreases cs
  {
    if cs == [] then []
    else (if Lined(cs[0]) then [(cs[0], Owner(cs[0], active))] else []) + Pushed(cs[1..], active)
  }

  /** Every map write the walk makes once it pops `n` with `active`, in order: the writes for
      its children, then those of the children's subtrees, last child first (the stack pops the
      last pushed child first). */
  function Walk(n: Node, active: Option<Node>): seq<Entry>
    decreases n, 1
  {
    Entries(n.children, active) + WalkRev(n.children, active)
  }

  function WalkRev(cs: seq<Node>, active: Option<Node>): seq<Entry>
    decreases cs, 0
  {
    if cs == [] then []
    else WalkRev(cs[1..], active) + WalkChild(cs[0], active)
  }

  function WalkChild(c: Node, active: Option<Node>): seq<Entry>
    decreases c, 2
  {
    if Lined(c) then Walk(c, Owner(c, active)) else []
  }

  /** The writes still to come from the items on a stack whose top is its last element. */
  function WalkStack(st: seq<Item>): seq<Entry>
    decreases |st|
  {
    if st == [] then [] else Walk(st[|st| - 1].0, st[|st| - 1].1) + WalkStack(st[..|st| - 1])
  }

  /** The dictionary after the writes `ws`, a later write to a key replacing an earlier one. */
  function Apply(m: map<string, Option<Node>>, ws: seq<Entry>): map<string, Option<Node>>
    decreases |ws|
  {
    if ws == [] then m else Apply(m[ws[0].0 := ws[0].1], ws[1..])
  }

  /** The dictionary `get_file_line_by_functions` returns. */
  function LineMap(root: Node): map<string, Option<Node>> {
    Apply(map[], Walk(root, None))
  }

  function Size(n: Node): nat
    decreases n, 1
  {
    1 + SizeList(n.children)
  }

  function SizeList(cs: seq<Node>): nat
    decreases cs, 0
  {
    if cs == [] then 0 else Size(cs[0]) + SizeList(cs[1..])
  }

  function StackSize(st: seq<Item>): nat
    decreases |st|
  {
    if st == [] then 0 else Size(st[|st| - 1].0) + StackSize(st[..|st| - 1])
  }

  /** `get_file_line_by_functions`. `visits`, the number of stack pops, never exceeds the number
      of nodes in the tree: the walk ends and looks at each node at most once. */
  method FileLineByFunctions(root: Node) returns (m: map<string, Option<Node>>, ghost visits: nat)
    ensures m == LineMap(root)
    ensures visits <= Size(root)
  {
    m := map[];
    visits := 0;
    var toVisit: seq<Item> := [(root, None)];
    assert WalkStack(toVisit) == Walk(root, None) + WalkStack([]) == Walk(root, None);
    while toVisit != []
      invariant Apply(m, WalkStack(toVisit)) == LineMap(root)
      invariant visits + StackSize(toVisit) <= Size(root)
      decreases StackSize(toVisit)
    {
      PopStep(toVisit, m);
      var node, active := toVisit[|toVisit| - 1].0, toVisit[|toVisit| - 1].1;
      var rest := toVisit[..|toVisit| - 1];
      visits := visits + 1;
      m, toVisit := VisitChildren(m, rest, node.children, active);
    }
  }

  /** The loop over the children of a popped node: a lined child is written to the map with its
      owner and pushed on the stack; an unlined child is skipped. */
  method VisitChildren(m0: map<string, Option<Node>>, rest: seq<Item>, cs: seq<Node>, active: Option<Node>)
    returns (m: map<string, Option<Node>>, toVisit: seq<Item>)
    ensures m == Apply(m0, Entries(cs, active))
    ensures toVisit == rest + Pushed(cs, active)
  {
    m, toVisit := m0, rest;
    for j := 0 to |cs|
      invariant m == Apply(m0, Entries(cs[..j], active))
      invariant toVisit == rest + Pushed(cs[..j], active)
    {
      var child := cs[j];
      EntriesSnoc(cs, j, active);
      PushedSnoc(cs, j, active);
      ApplyConcat(m0, Entries(cs[..j], active), Entries([child], active));
      if !Lined(child) {
        continue;
      }
      if child.kind.FunctionDef? {
        m := m[Key(child) := Some(child)];
        toVisit := toVisit + [(child, Some(child))];
        continue;
      }
      m := m[Key(child) := active];
      toVisit := toVisit + [(child, active)];
    }
    assert cs[..|cs|] == cs;
  }

  /** Popping the top item and handling its children leaves the writes still to come unchanged
      and makes the stack smaller. */
  lemma PopStep(st: seq<Item>, m0: map<string, Option<Node>>)
    requires st != []
    ensures var n, a, rest := st[|st| - 1].0, st[|st| - 1].1, st[..|st| - 1];
            Apply(Apply(m0, Entries(n.children, a)), WalkStack(rest + Pushed(n.children, a))) ==
              Apply(m0, WalkStack(st)) &&
            StackSize(rest + Pushed(n.children, a)) < StackSize(st)
  {
    var n, a, rest := st[|st| - 1].0, st[|st| - 1].1, st[..|st| - 1];
    var cs := n.children;
    assert WalkStack(st) == Entries(cs, a) + (WalkRev(cs, a) + WalkStack(rest));
    StackSizeConcat(rest, Pushed(cs, a));
    PushedSize(cs, a);
    WalkStackConcat(rest, Pushed(cs, a));
    WalkStackPushed(cs, a);
    ApplyConcat(m0, Entries(cs, a), WalkRev(cs, a) + WalkStack(rest));
  }

  lemma {:induction false} EntriesConcat(a: seq<Node>, b: seq<Node>, active: Option<Node>)
    ensures Entries(a + b, active) == Entries(a, active) + Entries(b, active)
    decreases |a|
  {
    if a != [] {
      assert (a + b)[1..] == a[1..] + b;
      EntriesConcat(a[1..], b, active);
    } else {
      assert a + b == b;
    }
  }

  lemma {:induction false} PushedConcat(a: seq<Node>, b: seq<Node>, active: Option<Node>)
    ensures Pushed(a + b, active) == Pushed(a, active) + Pushed(b, active)
    decreases |a|
  {
    if a != [] {
      assert (a + b)[1..] == a[1..] + b;
      PushedConcat(a[1..], b, active);
    } else {
      assert a + b == b;
    }
  }

  lemma EntriesSnoc(cs: seq<Node>, j: nat, active: Option<Node>)
    requires j < |cs|
    ensures Entries(cs[..j + 1], active) == Entries(cs[..j], active) + Entries([cs[j]], active)
    ensures Entries([cs[j]], active) == if Lined(cs[j]) then [(Key(cs[j]), Owner(cs[j], active))] else []
  {
    assert cs[..j + 1] == cs[..j] + [cs[j]];
    EntriesConcat(cs[..j], [cs[j]], active);
  }

  lemma PushedSnoc(cs: seq<Node>, j: nat, active: Option<Node>)
    requires j < |cs|
    ensures Pushed(cs[..j + 1], active) ==
              Pushed(cs[..j], active) + (if Lined(cs[j]) then [(cs[j], Owner(cs[j], active))] else [])
  {
    assert cs[..j + 1] == cs[..j] + [cs[j]];
    PushedConcat(cs[..j], [cs[j]], active);
  }

  lemma {:induction false} ApplyConcat(m: map<string, Option<Node>>, x: seq<Entry>, y: seq<Entry>)
    ensures Apply(m, x + y) == Apply(Apply(m, x), y)
    decreases |x|
  {
    if x != [] {
      assert (x + y)[1..] == x[1..] + y;
      ApplyConcat(m[x[0].0 := x[0].1], x[1..], y);
    } else {
      assert x + y == y;
    }
  }

  lemma {:induction false} WalkStackConcat(a: seq<Item>, b: seq<Item>)
    ensures WalkStack(a + b) == WalkStack(b) + WalkStack(a)
    decreases |b|
  {
    if b == [] {
      assert a + b == a;
    } else {
      assert (a + b)[..|a + b| - 1] == a + b[..|b| - 1];
      WalkStackConcat(a, b[..|b| - 1]);
    }
  }

  lemma {:induction false} StackSizeConcat(a: seq<Item>, b: seq<Item>)
    ensures StackSize(a + b) == StackSize(a) + StackSize(b)
    decreases |b|
  {
    if b == [] {
      assert a + b == a;
    } else {
      assert (a + b)[..|a + b| - 1] == a + b[..|b| - 1];
      StackSizeConcat(a, b[..|b| - 1]);
    }
  }

  /** Walking the pushed children off the stack makes the writes of their subtrees, last child
      first. */
  lemma {:induction false} WalkStackPushed(cs: seq<Node>, active: Option<Node>)
    ensures WalkStack(Pushed(cs, active)) == WalkRev(cs, active)
    decreases |cs|
  {
    if cs != [] {
      var head := if Lined(cs[0]) then [(cs[0], Owner(cs[0], active))] else [];
      WalkStackConcat(head, Pushed(cs[1..], active));
      WalkStackPushed(cs[1..], active);
      if Lined(cs[0]) {
        assert WalkStack(head) == Walk(cs[0], Owner(cs[0], active)) + WalkStack([]);
      }
    }
  }

  lemma {:induction false} PushedSize(cs: seq<Node>, active: Option<Node>)
    ensures StackSize(Pushed(cs, active)) <= SizeList(cs)
    decreases |cs|
  {
    if cs != [] {
      var head := if Lined(cs[0]) then [(cs[0], Owner(cs[0], active))] else [];
      StackSizeConcat(head, Pushed(cs[1..], active));
      PushedSize(cs[1..], active);
      if Lined(cs[0]) {
        assert StackSize(head) == Size(cs[0]) + StackSize([]);
      }
    }
  }

  // ---------------------------------------------------------------------------
  // What the map holds
  // ---------------------------------------------------------------------------

  /** Every lined node under `n` reached through lined nodes only, in source order, each with the
      function it belongs to: itself for a function definition, otherwise the innermost function
      definition around it (`active` when there is none below `n`). */
  function Owned(n: Node, active: Option<Node>): seq<Item>
    decreases n, 1
  {
    OwnedList(n.children, active)
  }

  function OwnedList(cs: seq<Node>, active: Option<Node>): seq<Item>
    decreases cs, 0
  {
    if cs == [] then [] else OwnedChild(cs[0], active) + OwnedList(cs[1..], active)
  }

  function OwnedChild(c: Node, active: Option<Node>): seq<Item>
    decreases c, 2
  {
    if Lined(c) then [(c, Owner(c, active))] + Owned(c, Owner(c, active)) else []
  }

  /** The map writes the nodes `items` stand for. */
  function Keyed(items: seq<Item>): seq<Entry>
    decreases |items|
  {
    if items == [] then []
    else (if Lined(items[0].0) then [(Key(items[0].0), items[0].1)] else []) + Keyed(items[1..])
  }

  lemma {:induction false} KeyedConcat(a: seq<Item>, b: seq<Item>)
    ensures Keyed(a + b) == Keyed(a) + Keyed(b)
    decreases |a|
  {
    if a != [] {
      assert (a + b)[1..] == a[1..] + b;
      KeyedConcat(a[1..], b);
    } else {
      assert a + b == b;
    }
  }

  lemma {:induction false} KeyedMember(items: seq<Item>, e: Entry)
    ensures e in Keyed(items) <==> exists it :: it in items && Lined(it.0) && e == (Key(it.0), it.1)
    decreases |items|
  {
    if items != [] {
      KeyedMember(items[1..], e);
      assert items == [items[0]] + items[1..];
    }
  }

  /** The walk makes one write per node of the source-order listing, in another order. */
  lemma {:induction false} WalkPermutesOwned(n: Node, active: Option<Node>)
    ensures multiset(Walk(n, active)) == multiset(Keyed(Owned(n, active)))
    decreases n, 1
  {
    WalkListPermutesOwned(n.children, active);
  }

  lemma {:induction false} WalkListPermutesOwned(cs: seq<Node>, active: Option<Node>)
    ensures multiset(Entries(cs, active) + WalkRev(cs, active)) == multiset(Keyed(OwnedList(cs, active)))
    decreases cs, 0
  {
    if cs != [] {
      var c, tail := cs[0], cs[1..];
      var first := if Lined(c) then [(Key(c), Owner(c, active))] else [];
      WalkListPermutesOwned(tail, active);
      ChildPermutesOwned(c, active);
      KeyedConcat(OwnedChild(c, active), OwnedList(tail, active));
      assert Entries(cs, active) == first + Entries(tail, active);
      assert WalkRev(cs, active) == WalkRev(tail, active) + WalkChild(c, active);
      assert OwnedList(cs, active) == OwnedChild(c, active) + OwnedList(tail, active);
      MergeCounts(first, Entries(tail, active), WalkRev(tail, active), WalkChild(c, active),
        Keyed(OwnedChild(c, active)), Keyed(OwnedList(tail, active)));
    }
  }

  /** Multiset bookkeeping for one step of the list walk. */
  lemma MergeCounts<T>(first: seq<T>, entries: seq<T>, rest: seq<T>, child: seq<T>, owned: seq<T>, others: seq<T>)
    requires multiset(entries + rest) == multiset(others)
    requires multiset(first + child) == multiset(owned)
    ensures multiset(first + entries + (rest + child)) == multiset(owned + others)
  {
  }

  /** One child: its own write and its subtree's writes are the writes of what it owns. */
  lemma {:induction false} ChildPermutesOwned(c: Node, active: Option<Node>)
    ensures multiset((if Lined(c) then [(Key(c), Owner(c, active))] else []) + WalkChild(c, active))
         == multiset(Keyed(OwnedChild(c, active)))
    decreases c, 2
  {
    if Lined(c) {
      var o := Owner(c, active);
      WalkPermutesOwned(c, o);
      KeyedConcat([(c, o)], Owned(c, o));
      assert Keyed([(c, o)]) == [(Key(c), o)] + Keyed([]);
    }
  }

  /** After writes in which every write to `k` writes `v`, and there is one, or `k` already held
      `v`, the dictionary maps `k` to `v`. */
  lemma {:induction false} ApplyAgreed(m: map<string, Option<Node>>, ws: seq<Entry>, k: string, v: Option<Node>)
    requires (k in m && m[k] == v) || (exists i :: 0 <= i < |ws| && ws[i].0 == k)
    requires forall i :: 0 <= i < |ws| && ws[i].0 == k ==> ws[i].1 == v
    ensures k in Apply(m, ws) && Apply(m, ws)[k] == v
    decreases |ws|
  {
    if ws != [] {
      var m' := m[ws[0].0 := ws[0].1];
      if !(k in m' && m'[k] == v) {
        var i :| 0 <= i < |ws| && ws[i].0 == k;
        assert i != 0;
        assert ws[1..][i - 1] == ws[i];
      }
      forall i | 0 <= i < |ws[1..]| && ws[1..][i].0 == k
        ensures ws[1..][i].1 == v
      {
        assert ws[1..][i] == ws[i + 1];
      }
      ApplyAgreed(m', ws[1..], k, v);
    }
  }

  lemma {:induction false} ApplyDomain(m: map<string, Option<Node>>, ws: seq<Entry>, k: string)
    ensures k in Apply(m, ws) <==> k in m || exists i :: 0 <= i < |ws| && ws[i].0 == k
    decreases |ws|
  {
    if ws != [] {
      ApplyDomain(m[ws[0].0 := ws[0].1], ws[1..], k);
      if exists i :: 0 <= i < |ws[1..]| && ws[1..][i].0 == k {
        var i :| 0 <= i < |ws[1..]| && ws[1..][i].0 == k;
        assert ws[i + 1].0 == k;
      }
      if exists i :: 0 <= i < |ws| && ws[i].0 == k {
        var i :| 0 <= i < |ws| && ws[i].0 == k;
        if i > 0 {
          assert ws[1..][i - 1].0 == k;
        }
      }
    }
  }

  /** `get_file_line_by_functions` has a key for exactly the line numbers of the nodes it reaches,
      and a line whose nodes all belong to the same function maps to that function. */
  lemma LineMapSpec(root: Node, k: string, v: Option<Node>)
    ensures k in LineMap(root) <==> exists it :: it in Owned(root, None) && Lined(it.0) && Key(it.0) == k
    ensures (exists it :: it in Owned(root, None) && Lined(it.0) && Key(it.0) == k) &&
            (forall it :: it in Owned(root, None) && Lined(it.0) && Key(it.0) == k ==> it.1 == v) ==>
              LineMap(root)[k] == v
  {
    var ws := Walk(root, None);
    var items := Owned(root, None);
    WalkPermutesOwned(root, None);
    ApplyDomain(map[], ws, k);
    if exists i :: 0 <= i < |ws| && ws[i].0 == k {
      var i :| 0 <= i < |ws| && ws[i].0 == k;
      assert ws[i] in multiset(Keyed(items));
      KeyedMember(items, ws[i]);
    }
    if exists it :: it in items && Lined(it.0) && Key(it.0) == k {
      var it :| it in items && Lined(it.0) && Key(it.0) == k;
      KeyedMember(items, (k, it.1));
      assert (k, it.1) in multiset(ws);
      var i :| 0 <= i < |ws| && ws[i] == (k, it.1);
      assert ws[i].0 == k;
      if forall it :: it in items && Lined(it.0) && Key(it.0) == k ==> it.1 == v {
        forall j | 0 <= j < |ws| && ws[j].0 == k
          ensures ws[j].1 == v
        {
          assert ws[j] in multiset(Keyed(items));
          KeyedMember(items, ws[j]);
        }
        ApplyAgreed(map[], ws, k, v);
      }
    }
  }

  /** The owners in a listing: every node is lined, a function definition belongs to itself, and
      any other node belongs to `active` or to a function definition listed before it. */
  ghost predicate WellOwned(items: seq<Item>, active: Option<Node>) {
    forall it :: it in items ==>
      && Lined(it.0)
      && (it.0.kind.FunctionDef? ==> it.1 == Some(it.0))
      && (it.1 == active || (it.1.Some? && it.1.value.kind.FunctionDef? && (it.1.value, it.1) in items))
  }

  /** Every line reached belongs to its own function definition, to the innermost one around it,
      or to no function at module level; each lined child of a node is reached. */
  lemma {:induction false} OwnedSpec(n: Node, active: Option<Node>)
    requires active.Some? ==> active.value.kind.FunctionDef?
    ensures WellOwned(Owned(n, active), active)
    ensures forall c :: c in n.children && Lined(c) ==> (c, Owner(c, active)) in Owned(n, active)
    decreases n, 1
  {
    OwnedListSpec(n.children, active);
  }

  lemma {:induction false} OwnedListSpec(cs: seq<Node>, active: Option<Node>)
    requires active.Some? ==> active.value.kind.FunctionDef?
    ensures WellOwned(OwnedList(cs, active), active)
    ensures forall c :: c in cs && Lined(c) ==> (c, Owner(c, active)) in OwnedList(cs, active)
    decreases cs, 0
  {
    if cs != [] {
      var c := cs[0];
      OwnedListSpec(cs[1..], active);
      if Lined(c) {
        OwnedSpec(c, Owner(c, active));
      }
      forall d | d in cs && Lined(d)
        ensures (d, Owner(d, active)) in OwnedList(cs, active)
      {
        if d != c {
          assert d in cs[1..];
        }
      }
    }
  }

  lemma {:induction false} WalkRevConcat(a: seq<Node>, b: seq<Node>, active: Option<Node>)
    ensures WalkRev(a + b, active) == WalkRev(b, active) + WalkRev(a, active)
    decreases |a|
  {
    if a != [] {
      assert (a + b)[1..] == a[1..] + b;
      WalkRevConcat(a[1..], b, active);
    } else {
      assert a + b == b;
    }
  }

  /** A child without a line number is skipped with everything below it: putting any other
      unlined node in its place changes none of the walk's writes. */
  lemma SkipUnlined(n: Node, i: nat, c: Node, active: Option<Node>)
    requires i < |n.children| && !Lined(n.children[i]) && !Lined(c)
    ensures Walk(Node(n.kind, n.line, n.children[i := c]), active) == Walk(n, active)
  {
    var cs := n.children;
    var cs' := cs[i := c];
    var pre, post := cs[..i], cs[i + 1..];
    assert cs == pre + ([cs[i]] + post);
    assert cs' == pre + ([c] + post);
    forall x | !Lined(x)
      ensures Entries([x] + post, active) == Entries(post, active)
      ensures WalkRev([x] + post, active) == WalkRev(post, active)
    {
      EntriesConcat([x], post, active);
      WalkRevConcat([x], post, active);
      assert Entries([x], active) == [] + Entries([], active);
      assert WalkRev([x], active) == WalkRev([], active) + WalkChild(x, active);
    }
    EntriesConcat(pre, [cs[i]] + post, active);
    EntriesConcat(pre, [c] + post, active);
    WalkRevConcat(pre, [cs[i]] + post, active);
    WalkRevConcat(pre, [c] + post, active);
  }

  // ---------------------------------------------------------------------------
  // The functions a module declares
  // ---------------------------------------------------------------------------

  /** `get_functions_from_ast`: the function definitions among the children of `n`, and those of
      its class children, in source order. */
  function FunctionsFrom(n: Node): (r: seq<Node>)
    ensures forall f :: f in r ==> f.kind.FunctionDef?
    decreases n, 1
  {
    FunctionsFromList(n.children)
  }

  function FunctionsFromList(cs: seq<Node>): (r: seq<Node>)
    ensures forall f :: f in r ==> f.kind.FunctionDef?
    decreases cs, 0
  {
    if cs == [] then [] else FunctionsFromChild(cs[0]) + FunctionsFromList(cs[1..])
  }

  function FunctionsFromChild(c: Node): (r: seq<Node>)
    ensures forall f :: f in r ==> f.kind.FunctionDef?
    decreases c, 2
  {
    (if c.kind.ClassDef? then FunctionsFrom(c) else []) + (if c.kind.FunctionDef? then [c] else [])
  }

  /** Every node under `n` in source order, each marked with whether every node from `n` down to
      it, itself excluded, is a class (`chain` says whether that holds above `n`). */
  function Preorder(n: Node, chain: bool): seq<(Node, bool)>
    decreases n, 1
  {
    PreorderList(n.children, chain)
  }

  function PreorderList(cs: seq<Node>, chain: bool): seq<(Node, bool)>
    decreases cs, 0
  {
    if cs == [] then [] else PreorderChild(cs[0], chain) + PreorderList(cs[1..], chain)
  }

  function PreorderChild(c: Node, chain: bool): seq<(Node, bool)>
    decreases c, 2
  {
    [(c, chain)] + Preorder(c, chain && c.kind.ClassDef?)
  }

  /** The function definitions of a marked listing whose mark is set, in order. */
  function TopFunctions(ps: seq<(Node, bool)>): seq<Node>
    decreases |ps|
  {
    if ps == [] then []
    else (if ps[0].1 && ps[0].0.kind.FunctionDef? then [ps[0].0] else []) + TopFunctions(ps[1..])
  }

  lemma {:induction false} TopFunctionsConcat(a: seq<(Node, bool)>, b: seq<(Node, bool)>)
    ensures TopFunctions(a + b) == TopFunctions(a) + TopFunctions(b)
    decreases |a|
  {
    if a != [] {
      assert (a + b)[1..] == a[1..] + b;
      TopFunctionsConcat(a[1..], b);
    } else {
      assert a + b == b;
    }
  }

  /** Nothing below a node that is neither the module nor a class is yielded. */
  lemma {:induction false} NoFunctionsBelowOthers(n: Node)
    ensures TopFunctions(Preorder(n, false)) == []
    decreases n, 1
  {
    NoFunctionsBelowOthersList(n.children);
  }

  lemma {:induction false} NoFunctionsBelowOthersList(cs: seq<Node>)
    ensures TopFunctions(PreorderList(cs, false)) == []
    decreases cs, 0
  {
    if cs != [] {
      NoFunctionsBelowOthersList(cs[1..]);
      NoFunctionsBelowOthers(cs[0]);
      TopFunctionsConcat(PreorderChild(cs[0], false), PreorderList(cs[1..], false));
      TopFunctionsConcat([(cs[0], false)], Preorder(cs[0], false));
      assert TopFunctions([(cs[0], false)]) == [] + TopFunctions([]);
    }
  }

  /** The functions yielded are exactly the function definitions, in source order, reached from
      the module through classes only: never one nested in a function or in any other
      statement. */
  lemma {:induction false} FunctionsFromSpec(n: Node)
    ensures FunctionsFrom(n) == TopFunctions(Preorder(n, true))
    decreases n, 1
  {
    FunctionsFromListSpec(n.children);
  }

  lemma {:induction false} FunctionsFromListSpec(cs: seq<Node>)
    ensures FunctionsFromList(cs) == TopFunctions(PreorderList(cs, true))
    decreases cs, 0
  {
    if cs != [] {
      var c := cs[0];
      FunctionsFromListSpec(cs[1..]);
      TopFunctionsConcat(PreorderChild(c, true), PreorderList(cs[1..], true));
      TopFunctionsConcat([(c, true)], Preorder(c, c.kind.ClassDef?));
      if c.kind.ClassDef? {
        FunctionsFromSpec(c);
      } else {
        NoFunctionsBelowOthers(c);
      }
      assert TopFunctions([(c, true)]) == (if c.kind.FunctionDef? then [c] else []) + TopFunctions([]);
    }
  }

  /** `get_all_functions`: the list of what `get_functions_from_ast` yields. */
  function AllFunctions(root: Node): (r: seq<Node>)
    ensures r == TopFunctions(Preorder(root, true))
  {
    FunctionsFromSpec(root);
    FunctionsFrom(root)
  }
}
