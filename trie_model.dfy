/** The trie of Trie.cpp, as values. A `TrieNode` owns a vector of child
    nodes; here every node lives in one arena `seq<Node>`, the root at index
    0, and a node's `children` lists the arena indices of its child nodes in
    the order the vector holds them. Sorting the vector moves whole subtrees,
    which is what reordering indices does. */
module TrieModel {

  datatype Option<T> = None | Some(value: T)

  /** One `TrieNode`: its character, how many added words pass through it,
      whether a word ends here, and its children in vector order. */
  datatype Node = Node(data: char, count: nat, isEndOfWord: bool, children: seq<nat>)

  /** `TrieNode()`, the root: no character, count 1, not an end of word. */
  const Root: Node := Node('\0', 1, false, [])

  /** `TrieNode(ch)`: a new child node. */
  function Fresh(ch: char): (n: Node)
    ensures n.data == ch && n.count == 1 && !n.isEndOfWord && n.children == []
  {
    Node(ch, 1, false, [])
  }

  /** Every child index points forward in the arena: the arena is a forest
      of trees, and any walk down it terminates. */
  ghost predicate Linked(ns: seq<Node>)
  {
    forall i, k :: 0 <= i < |ns| && 0 <= k < |ns[i].children| ==> i < ns[i].children[k] < |ns|
  }

  /** The children are in strictly increasing order of character: the order
      `std::sort` leaves them in, with no two children for one character. */
  ghost predicate SortedByData(ns: seq<Node>, kids: seq<nat>)
  {
    forall j, k :: 0 <= j < k < |kids| && kids[j] < |ns| && kids[k] < |ns| ==>
      ns[kids[j]].data < ns[kids[k]].data
  }

  /** What every trie built by `add` from a fresh root satisfies. */
  ghost predicate WellFormed(ns: seq<Node>)
  {
    && |ns| >= 1
    && ns[0].count == 1
    && Linked(ns)
    && (forall i {:trigger ns[i].count} :: 0 <= i < |ns| ==> ns[i].count >= 1)
    && (forall i {:trigger ns[i].children} :: 0 <= i < |ns| ==> SortedByData(ns, ns[i].children))
  }

  /** The inner `for (auto &child : node->children)` scan: the first child
      holding `ch`, if any. */
  ghost function ChildWith(ns: seq<Node>, kids: seq<nat>, ch: char): (r: Option<nat>)
    requires forall k :: 0 <= k < |kids| ==> kids[k] < |ns|
    ensures r.Some? ==> r.value in kids && ns[r.value].data == ch
    ensures r.None? <==> forall k :: 0 <= k < |kids| ==> ns[kids[k]].data != ch
  {
    if kids == [] then None
    else if ns[kids[0]].data == ch then Some(kids[0])
    else ChildWith(ns, kids[1..], ch)
  }

  /** The node reached from `cur` by following the characters of `w`, if
      every one of them is found among the children. */
  ghost function Walk(ns: seq<Node>, cur: nat, w: string): (r: Option<nat>)
    requires Linked(ns) && cur < |ns|
    ensures r.Some? ==> cur <= r.value < |ns| && (w != [] ==> cur < r.value)
    decreases |w|
  {
    if w == [] then Some(cur)
    else
      match ChildWith(ns, ns[cur].children, w[0])
      case None => None
      case Some(c) => Walk(ns, c, w[1..])
  }

  /** What `findPrefix` answers: 0 for a trie with no words, 0 when some
      character of `w` is missing on the way down, and otherwise the counter
      of the node reached. */
  ghost function PrefixCount(ns: seq<Node>, w: string): (r: nat)
    requires Linked(ns) && |ns| >= 1
    ensures ns[0].children == [] || Walk(ns, 0, w).None? ==> r == 0
    ensures ns[0].children != [] && Walk(ns, 0, w).Some? ==> r == ns[Walk(ns, 0, w).value].count
  {
    if ns[0].children == [] then 0
    else
      match Walk(ns, 0, w)
      case None => 0
      case Some(n) => ns[n].count
  }

  /** `std::sort` of the children after `x` was pushed at the back, ordered
      by character. The sort is not stable, but the model only uses it on
      children with pairwise different characters, where the sorted order is
      unique (`SortedIsUnique`). */
  function InsertByData(ns: seq<Node>, kids: seq<nat>, x: nat): (r: seq<nat>)
    requires x < |ns| && forall k :: 0 <= k < |kids| ==> kids[k] < |ns|
    ensures |r| == |kids| + 1
    ensures multiset(r) == multiset(kids) + multiset{x}
    ensures forall k :: 0 <= k < |r| ==> r[k] == x || r[k] in kids
  {
    if kids == [] then [x]
    else if ns[x].data < ns[kids[0]].data then [x] + kids
    else
      assert kids == [kids[0]] + kids[1..];
      [kids[0]] + InsertByData(ns, kids[1..], x)
  }

  /** A character below every sibling's and the inserted child's stays
      below every character after the insertion. */
  lemma {:induction false} InsertKeepsLowerBound(ns: seq<Node>, kids: seq<nat>, x: nat, h: nat)
    requires x < |ns| && h < |ns| && forall k :: 0 <= k < |kids| ==> kids[k] < |ns|
    requires ns[h].data < ns[x].data && forall k :: 0 <= k < |kids| ==> ns[h].data < ns[kids[k]].data
    ensures forall k :: 0 <= k < |kids| + 1 ==> ns[h].data < ns[InsertByData(ns, kids, x)[k]].data
  {
    if kids != [] && ns[kids[0]].data <= ns[x].data {
      InsertKeepsLowerBound(ns, kids[1..], x, h);
    }
  }

  /** A child below every character of a sorted list can go in front. */
  lemma SortedCons(ns: seq<Node>, h: nat, t: seq<nat>)
    requires h < |ns| && forall k :: 0 <= k < |t| ==> t[k] < |ns|
    requires SortedByData(ns, t) && forall k :: 0 <= k < |t| ==> ns[h].data < ns[t[k]].data
    ensures SortedByData(ns, [h] + t)
  {
    var r := [h] + t;
    forall j, k | 0 <= j < k < |r|
      ensures ns[r[j]].data < ns[r[k]].data
    {
      if j > 0 {
        assert r[j] == t[j - 1] && r[k] == t[k - 1];
      }
    }
  }

  /** Inserting a child whose character no sibling has keeps the children
      sorted. */
  lemma {:induction false} InsertKeepsSorted(ns: seq<Node>, kids: seq<nat>, x: nat)
    requires x < |ns| && forall k :: 0 <= k < |kids| ==> kids[k] < |ns|
    requires SortedByData(ns, kids)
    requires forall k :: 0 <= k < |kids| ==> ns[kids[k]].data != ns[x].data
    ensures SortedByData(ns, InsertByData(ns, kids, x))
  {
    if kids == [] {
    } else if ns[x].data < ns[kids[0]].data {
      SortedCons(ns, x, kids);
    } else {
      var t := kids[1..];
      assert SortedByData(ns, t);
      InsertKeepsSorted(ns, t, x);
      InsertKeepsLowerBound(ns, t, x, kids[0]);
      SortedCons(ns, kids[0], InsertByData(ns, t, x));
    }
  }

  /** A child whose character exceeds all its siblings' is sorted into the
      last slot. */
  lemma {:induction false} InsertGreatestAppends(ns: seq<Node>, kids: seq<nat>, x: nat)
    requires x < |ns| && forall k :: 0 <= k < |kids| ==> kids[k] < |ns|
    requires forall k :: 0 <= k < |kids| ==> ns[kids[k]].data < ns[x].data
    ensures InsertByData(ns, kids, x) == kids + [x]
  {
    if kids != [] {
      InsertGreatestAppends(ns, kids[1..], x);
    }
  }

  /** One pass of the outer loop of `add` (Trie.cpp:47-68), from node `cur`
      with character `ch`: the new arena and the node the walk goes on from.
      A child holding `ch` has its counter incremented and is entered.
      Otherwise a fresh node is appended, the children are sorted, and the
      walk goes on at whatever child the sort left in the last slot: the one
      with the greatest character, not necessarily the new node. */
  ghost function Step(ns: seq<Node>, cur: nat, ch: char): (r: (seq<Node>, nat))
    requires Linked(ns) && cur < |ns|
    ensures Linked(r.0) && |ns| <= |r.0| && cur < r.1 < |r.0|
  {
    match ChildWith(ns, ns[cur].children, ch)
    case Some(c) => (ns[c := ns[c].(count := ns[c].count + 1)], c)
    case None =>
      var grown := ns + [Fresh(ch)];
      var sorted := InsertByData(grown, ns[cur].children, |ns|);
      (grown[cur := grown[cur].(children := sorted)], sorted[|ns[cur].children|])
  }

  /** `add(w)` started at node `cur`: a `Step` per character, then the node
      the walk ends at is marked as the end of a word. */
  ghost function AddFrom(ns: seq<Node>, cur: nat, w: string): (r: seq<Node>)
    requires Linked(ns) && cur < |ns|
    ensures Linked(r) && |ns| <= |r|
    decreases |w|
  {
    if w == [] then ns[cur := ns[cur].(isEndOfWord := true)]
    else
      var (ns', next) := Step(ns, cur, w[0]);
      AddFrom(ns', next, w[1..])
  }

  /** The walk of `search` over `w` from `cur`: how many characters of `w`
      were found, and the node reached. */
  ghost function MatchFrom(ns: seq<Node>, cur: nat, w: string): (r: (nat, nat))
    requires Linked(ns) && cur < |ns|
    ensures r.0 <= |w| && cur <= r.1 < |ns|
    decreases |w|
  {
    if w == [] then (0, cur)
    else
      match ChildWith(ns, ns[cur].children, w[0])
      case None => (0, cur)
      case Some(c) =>
        var m := MatchFrom(ns, c, w[1..]);
        (m.0 + 1, m.1)
  }

  /** The prefix `search` keeps is present in the trie and is the longest
      such prefix of `w`. */
  lemma {:induction false} MatchIsLongestPrefix(ns: seq<Node>, cur: nat, w: string)
    requires Linked(ns) && cur < |ns|
    ensures Walk(ns, cur, w[..MatchFrom(ns, cur, w).0]) == Some(MatchFrom(ns, cur, w).1)
    ensures MatchFrom(ns, cur, w).0 < |w| ==> Walk(ns, cur, w[..MatchFrom(ns, cur, w).0 + 1]) == None
    decreases |w|
  {
    if w != [] {
      match ChildWith(ns, ns[cur].children, w[0])
      case None =>
        assert w[..1] == [w[0]];
      case Some(c) =>
        MatchIsLongestPrefix(ns, c, w[1..]);
        var k := MatchFrom(ns, c, w[1..]).0;
        assert w[..k + 1][1..] == w[1..][..k];
        assert k + 1 < |w| ==> w[..k + 2][1..] == w[1..][..k + 1];
    }
  }

  /** Following first children from `n` reaches an end of word. When it does
      not, `search` would step into an empty vector: undefined in C++. */
  ghost predicate DescentEnds(ns: seq<Node>, n: nat)
    requires Linked(ns) && n < |ns|
    decreases |ns| - n
  {
    ns[n].isEndOfWord || (ns[n].children != [] && DescentEnds(ns, ns[n].children[0]))
  }

  /** The characters `search` appends while it follows first children. */
  ghost function Descent(ns: seq<Node>, n: nat): (s: string)
    requires Linked(ns) && n < |ns| && DescentEnds(ns, n)
    ensures match Walk(ns, n, s)
      case None => false
      case Some(m) => ns[m].isEndOfWord
    decreases |ns| - n
  {
    if ns[n].isEndOfWord then []
    else
      var c := ns[n].children[0];
      assert ChildWith(ns, ns[n].children, ns[c].data) == Some(c);
      [ns[c].data] + Descent(ns, c)
  }

  /** The inputs for which `search` is defined. */
  ghost predicate SearchDefined(ns: seq<Node>, w: string)
    requires Linked(ns) && |ns| >= 1
  {
    ns[0].children == [] || DescentEnds(ns, MatchFrom(ns, 0, w).1)
  }

  /** What `search` answers: "" for a trie with no words, and otherwise the
      longest prefix of `w` in the trie followed by the first-child descent
      from where that prefix ends. */
  ghost function SearchResult(ns: seq<Node>, w: string): (r: string)
    requires Linked(ns) && |ns| >= 1 && SearchDefined(ns, w)
    ensures ns[0].children == [] ==> r == []
    ensures ns[0].children != [] ==>
      MatchFrom(ns, 0, w).0 <= |r| && r[..MatchFrom(ns, 0, w).0] == w[..MatchFrom(ns, 0, w).0]
  {
    if ns[0].children == [] then []
    else
      var m := MatchFrom(ns, 0, w);
      w[..m.0] + Descent(ns, m.1)
  }

  /** The scan stops at the first child holding `ch`. */
  lemma {:induction false} ChildWithAt(ns: seq<Node>, kids: seq<nat>, ch: char, j: nat)
    requires forall k :: 0 <= k < |kids| ==> kids[k] < |ns|
    requires j < |kids| && ns[kids[j]].data == ch
    requires forall k :: 0 <= k < j ==> ns[kids[k]].data != ch
    ensures ChildWith(ns, kids, ch) == Some(kids[j])
  {
    if j > 0 {
      ChildWithAt(ns, kids[1..], ch, j - 1);
    }
  }

  /** Two sorted orders of the same children start with the same child. */
  lemma SortedHeadsAgree(ns: seq<Node>, a: seq<nat>, b: seq<nat>)
    requires forall k :: 0 <= k < |a| ==> a[k] < |ns|
    requires forall k :: 0 <= k < |b| ==> b[k] < |ns|
    requires SortedByData(ns, a) && SortedByData(ns, b)
    requires multiset(a) == multiset(b) && a != []
    ensures b != [] && a[0] == b[0]
  {
    assert a[0] in multiset(b);
    var j :| 0 <= j < |b| && b[j] == a[0];
    assert b[0] in multiset(a);
    var i :| 0 <= i < |a| && a[i] == b[0];
  }

  /** Removing equal heads leaves equal multisets. */
  lemma TailMultisets(a: seq<nat>, b: seq<nat>)
    requires a != [] && b != [] && a[0] == b[0] && multiset(a) == multiset(b)
    ensures multiset(a[1..]) == multiset(b[1..])
  {
    assert a == [a[0]] + a[1..] && b == [b[0]] + b[1..];
    assert multiset(a) == multiset{a[0]} + multiset(a[1..]);
    assert multiset(b) == multiset{b[0]} + multiset(b[1..]);
    assert multiset(a[1..]) == multiset(a) - multiset{a[0]};
  }

  /** Sorting distinct characters has one outcome, so an unstable sort is
      as good as any other here. */
  lemma {:induction false} SortedIsUnique(ns: seq<Node>, a: seq<nat>, b: seq<nat>)
    requires forall k :: 0 <= k < |a| ==> a[k] < |ns|
    requires forall k :: 0 <= k < |b| ==> b[k] < |ns|
    requires SortedByData(ns, a) && SortedByData(ns, b)
    requires multiset(a) == multiset(b)
    ensures a == b
    decreases |a|
  {
    if a != [] {
      SortedHeadsAgree(ns, a, b);
      TailMultisets(a, b);
      SortedIsUnique(ns, a[1..], b[1..]);
      assert a == [a[0]] + a[1..] && b == [b[0]] + b[1..];
    } else {
      assert |b| == |multiset(b)| == 0;
    }
  }

  /** Sortedness only depends on the characters of the nodes listed. */
  lemma SortedTransfer(ns: seq<Node>, ns2: seq<Node>, kids: seq<nat>)
    requires |ns| <= |ns2| && forall k :: 0 <= k < |kids| ==> kids[k] < |ns|
    requires forall i :: 0 <= i < |ns| ==> ns2[i].data == ns[i].data
    requires SortedByData(ns, kids)
    ensures SortedByData(ns2, kids)
  {
  }

  /** Counting a word through an existing child keeps the trie well formed. */
  lemma EnterWellFormed(ns: seq<Node>, c: nat)
    requires WellFormed(ns) && 0 < c < |ns|
    ensures WellFormed(ns[c := ns[c].(count := ns[c].count + 1)])
  {
    var r := ns[c := ns[c].(count := ns[c].count + 1)];
    forall i | 0 <= i < |r|
      ensures SortedByData(r, r[i].children)
    {
      SortedTransfer(ns, r, ns[i].children);
    }
  }

  /** Appending a child for a character no child of `cur` holds, and
      sorting, keeps the trie well formed. */
  lemma CreateWellFormed(ns: seq<Node>, cur: nat, ch: char)
    requires WellFormed(ns) && cur < |ns|
    requires forall k :: 0 <= k < |ns[cur].children| ==> ns[ns[cur].children[k]].data != ch
    ensures
      var grown := ns + [Fresh(ch)];
      var sorted := InsertByData(grown, ns[cur].children, |ns|);
      WellFormed(grown[cur := grown[cur].(children := sorted)])
  {
    var grown := ns + [Fresh(ch)];
    var kids := ns[cur].children;
    var sorted := InsertByData(grown, kids, |ns|);
    var r := grown[cur := grown[cur].(children := sorted)];
    InsertKeepsSorted(grown, kids, |ns|);
    forall i | 0 <= i < |r|
      ensures r[i].count >= 1 && SortedByData(r, r[i].children)
    {
      if i == cur {
        SortedTransfer(grown, r, sorted);
      } else if i < |ns| {
        SortedTransfer(ns, r, ns[i].children);
      }
    }
    assert Linked(r) by {
      assert r == Step(ns, cur, ch).0;
    }
  }

  /** A pass of `add` keeps the trie well formed. */
  lemma StepWellFormed(ns: seq<Node>, cur: nat, ch: char)
    requires WellFormed(ns) && cur < |ns|
    ensures WellFormed(Step(ns, cur, ch).0)
  {
    match ChildWith(ns, ns[cur].children, ch)
    case Some(c) =>
      EnterWellFormed(ns, c);
    case None =>
      CreateWellFormed(ns, cur, ch);
  }

  /** Marking the end of a word keeps the trie well formed. */
  lemma MarkWellFormed(ns: seq<Node>, cur: nat)
    requires WellFormed(ns) && cur < |ns|
    ensures WellFormed(ns[cur := ns[cur].(isEndOfWord := true)])
  {
    var r := ns[cur := ns[cur].(isEndOfWord := true)];
    forall i | 0 <= i < |r|
      ensures SortedByData(r, r[i].children)
    {
      assert SortedByData(ns, ns[i].children);
    }
  }

  /** `add` keeps the trie well formed. */
  lemma {:induction false} AddFromWellFormed(ns: seq<Node>, cur: nat, w: string)
    requires WellFormed(ns) && cur < |ns|
    ensures WellFormed(AddFrom(ns, cur, w))
    decreases |w|
  {
    if w == [] {
      MarkWellFormed(ns, cur);
    } else {
      StepWellFormed(ns, cur, w[0]);
      var (ns', next) := Step(ns, cur, w[0]);
      AddFromWellFormed(ns', next, w[1..]);
    }
  }
}
