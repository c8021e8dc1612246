/** What `add`, `findPrefix` and `search` of Trie.cpp guarantee, stated on
    the arena model. */
module TrieProperties {
  import opened TrieModel

  /** The nodes the walk of `add` passes through, starting at `cur`. */
  ghost function AddPath(ns: seq<Node>, cur: nat, w: string): (p: seq<nat>)
    requires Linked(ns) && cur < |ns|
    ensures |p| == |w| + 1 && p[0] == cur
    decreases |w|
  {
    if w == [] then [cur]
    else
      var (ns', next) := Step(ns, cur, w[0]);
      [cur] + AddPath(ns', next, w[1..])
  }

  /** The existing children `add` matches and counts (Trie.cpp:49-54). A
      node the walk lands on after a sort is on the path, but not entered. */
  ghost function Entered(ns: seq<Node>, cur: nat, w: string): set<nat>
    requires Linked(ns) && cur < |ns|
    decreases |w|
  {
    if w == [] then {}
    else
      var (ns', next) := Step(ns, cur, w[0]);
      (if ChildWith(ns, ns[cur].children, w[0]).Some? then {next} else {})
      + Entered(ns', next, w[1..])
  }

  /** `r` grows out of `ns`: no node disappears or changes character, no
      end-of-word flag is cleared and no child is dropped. */
  ghost predicate Grows(ns: seq<Node>, r: seq<Node>)
  {
    && |ns| <= |r|
    && forall i :: 0 <= i < |ns| ==>
         && r[i].data == ns[i].data
         && (ns[i].isEndOfWord ==> r[i].isEndOfWord)
         && forall k :: 0 <= k < |ns[i].children| ==> ns[i].children[k] in r[i].children
  }

  /** A pass of `add` over `ch` at `cur` either finds a child or creates
      one whose character exceeds those of all its siblings. */
  ghost predicate GreatestIfCreated(ns: seq<Node>, cur: nat, ch: char)
    requires Linked(ns) && cur < |ns|
  {
    var kids := ns[cur].children;
    ChildWith(ns, kids, ch).None? ==> forall k :: 0 <= k < |kids| ==> ns[kids[k]].data < ch
  }

  /** The precondition under which `add` spells its input: every child it
      creates is the greatest among its siblings, so the sort leaves it in
      the last slot where the walk continues. */
  ghost predicate Ascends(ns: seq<Node>, cur: nat, w: string)
    requires Linked(ns) && cur < |ns|
    decreases |w|
  {
    w == [] ||
      var (ns', next) := Step(ns, cur, w[0]);
      GreatestIfCreated(ns, cur, w[0]) && Ascends(ns', next, w[1..])
  }

  /** `w` is a word of the trie: its walk from the root ends at a node that
      ends a word. */
  ghost predicate IsWord(ns: seq<Node>, w: string)
    requires Linked(ns) && |ns| >= 1
  {
    match Walk(ns, 0, w)
    case None => false
    case Some(n) => ns[n].isEndOfWord
  }

  /** `a <= b` lexicographically, comparing character codes. */
  ghost predicate LexLeq(a: string, b: string)
  {
    a == [] || (b != [] && (a[0] < b[0] || (a[0] == b[0] && LexLeq(a[1..], b[1..]))))
  }

  // ---------------------------------------------------------------------
  // Walks

  /** Walking `u + v` is walking `u`, then `v`. */
  lemma {:induction false} WalkConcat(ns: seq<Node>, a: nat, u: string, v: string)
    requires Linked(ns) && a < |ns|
    ensures Walk(ns, a, u + v) == match Walk(ns, a, u)
      case None => None
      case Some(b) => Walk(ns, b, v)
    decreases |u|
  {
    if u == [] {
      assert u + v == v;
    } else {
      assert (u + v)[0] == u[0] && (u + v)[1..] == u[1..] + v;
      match ChildWith(ns, ns[a].children, u[0])
      case None =>
      case Some(c) =>
        WalkConcat(ns, c, u[1..], v);
    }
  }

  /** Among sorted children the scan finds the one child with a character. */
  lemma ChildWithUnique(ns: seq<Node>, kids: seq<nat>, j: nat)
    requires forall k :: 0 <= k < |kids| ==> kids[k] < |ns|
    requires SortedByData(ns, kids) && j < |kids|
    ensures ChildWith(ns, kids, ns[kids[j]].data) == Some(kids[j])
  {
    ChildWithAt(ns, kids, ns[kids[j]].data, j);
  }

  /** A walk that exists in `ns` exists, to the same node, in any well
      formed trie that grows out of `ns`. */
  lemma {:induction false} WalkGrows(ns: seq<Node>, r: seq<Node>, cur: nat, u: string)
    requires Linked(ns) && WellFormed(r) && Grows(ns, r) && cur < |ns|
    requires Walk(ns, cur, u).Some?
    ensures Walk(r, cur, u) == Walk(ns, cur, u)
    decreases |u|
  {
    if u != [] {
      var c := ChildWith(ns, ns[cur].children, u[0]).value;
      assert c in r[cur].children;
      var j :| 0 <= j < |r[cur].children| && r[cur].children[j] == c;
      ChildWithUnique(r, r[cur].children, j);
      WalkGrows(ns, r, c, u[1..]);
    }
  }

  /** A walk only looks at characters and children, never at counters. */
  lemma {:induction false} WalkIgnoresCount(ns: seq<Node>, c: nat, cur: nat, u: string)
    requires Linked(ns) && c < |ns| && cur < |ns|
    ensures Linked(ns[c := ns[c].(count := ns[c].count + 1)])
    ensures Walk(ns[c := ns[c].(count := ns[c].count + 1)], cur, u) == Walk(ns, cur, u)
    decreases |u|
  {
    var ns1 := ns[c := ns[c].(count := ns[c].count + 1)];
    if u != [] {
      ChildWithSameData(ns, ns1, ns[cur].children, u[0]);
      match ChildWith(ns, ns[cur].children, u[0])
      case None =>
      case Some(d) =>
        WalkIgnoresCount(ns, c, d, u[1..]);
    }
  }

  /** The scan only looks at characters. */
  lemma {:induction false} ChildWithSameData(ns: seq<Node>, ns1: seq<Node>, kids: seq<nat>, ch: char)
    requires |ns| == |ns1| && forall i :: 0 <= i < |ns| ==> ns1[i].data == ns[i].data
    requires forall k :: 0 <= k < |kids| ==> kids[k] < |ns|
    ensures ChildWith(ns1, kids, ch) == ChildWith(ns, kids, ch)
  {
    if kids != [] {
      ChildWithSameData(ns, ns1, kids[1..], ch);
    }
  }

  // ---------------------------------------------------------------------
  // add

  /** The counter of the node a walk reaches, 0 when the walk fails. */
  ghost function WalkCount(ns: seq<Node>, cur: nat, u: string): nat
    requires Linked(ns) && cur < |ns|
  {
    match Walk(ns, cur, u)
    case None => 0
    case Some(n) => ns[n].count
  }

  lemma GrowsTransitive(a: seq<Node>, b: seq<Node>, c: seq<Node>)
    requires Grows(a, b) && Grows(b, c)
    ensures Grows(a, c)
  {
    forall i, k | 0 <= i < |a| && 0 <= k < |a[i].children|
      ensures a[i].children[k] in c[i].children
    {
      assert a[i].children[k] in b[i].children;
      var j :| 0 <= j < |b[i].children| && b[i].children[j] == a[i].children[k];
    }
  }

  /** A pass of `add` only adds: a counter, or a node and a child. */
  lemma StepGrows(ns: seq<Node>, cur: nat, ch: char)
    requires Linked(ns) && cur < |ns|
    ensures Grows(ns, Step(ns, cur, ch).0)
  {
    var kids := ns[cur].children;
    if ChildWith(ns, kids, ch).None? {
      var grown := ns + [Fresh(ch)];
      var sorted := InsertByData(grown, kids, |ns|);
      var r := grown[cur := grown[cur].(children := sorted)];
      forall k | 0 <= k < |kids|
        ensures kids[k] in sorted
      {
        assert kids[k] in multiset(sorted);
      }
      assert Step(ns, cur, ch).0 == r;
    }
  }


  /** `add` never removes a node or a child, never changes a character and
      never clears an end-of-word flag (Trie.cpp:47-71). */
  lemma {:induction false} AddGrows(ns: seq<Node>, cur: nat, w: string)
    requires Linked(ns) && cur < |ns|
    ensures Grows(ns, AddFrom(ns, cur, w))
    decreases |w|
  {
    if w != [] {
      var (ns', next) := Step(ns, cur, w[0]);
      StepGrows(ns, cur, w[0]);
      AddGrows(ns', next, w[1..]);
      GrowsTransitive(ns, ns', AddFrom(ns', next, w[1..]));
    }
  }

  /** The first pass of `add`, then the rest of the walk. */
  lemma AddUnfolds(ns: seq<Node>, cur: nat, w: string, ns': seq<Node>, next: nat)
    requires Linked(ns) && cur < |ns| && w != [] && (ns', next) == Step(ns, cur, w[0])
    ensures AddFrom(ns, cur, w) == AddFrom(ns', next, w[1..])
    ensures AddPath(ns, cur, w) == [cur] + AddPath(ns', next, w[1..])
  {
  }

  /** `add` marks the node its walk ends at (Trie.cpp:71). */
  lemma {:induction false} AddMarksEnd(ns: seq<Node>, cur: nat, w: string)
    requires Linked(ns) && cur < |ns|
    ensures var p := AddPath(ns, cur, w);
      p[|w|] < |AddFrom(ns, cur, w)| && AddFrom(ns, cur, w)[p[|w|]].isEndOfWord
    decreases |w|
  {
    if w != [] {
      var (ns', next) := Step(ns, cur, w[0]);
      AddMarksEnd(ns', next, w[1..]);
      AddUnfolds(ns, cur, w, ns', next);
    }
  }

  /** Nodes off the walk of `add` are left exactly as they were. */
  lemma {:induction false} AddLeavesOffPath(ns: seq<Node>, cur: nat, w: string, i: nat)
    requires Linked(ns) && cur < |ns|
    requires i < |ns| && i !in AddPath(ns, cur, w)
    ensures i < |AddFrom(ns, cur, w)| && AddFrom(ns, cur, w)[i] == ns[i]
    decreases |w|
  {
    if w != [] {
      var (ns', next) := Step(ns, cur, w[0]);
      AddLeavesOffPath(ns', next, w[1..], i);
      AddUnfolds(ns, cur, w, ns', next);
    }
  }

  /** `add` adds exactly 1 to the counter of every child it enters and
      leaves every other counter of the old trie alone; it only enters nodes
      below its start, so the root's counter never changes (Trie.cpp:51). */
  lemma {:induction false} AddCounts(ns: seq<Node>, cur: nat, w: string)
    requires Linked(ns) && cur < |ns|
    ensures forall i :: i in Entered(ns, cur, w) ==> cur < i
    ensures forall i :: 0 <= i < |ns| ==>
      i < |AddFrom(ns, cur, w)|
      && AddFrom(ns, cur, w)[i].count == ns[i].count + if i in Entered(ns, cur, w) then 1 else 0
    decreases |w|
  {
    if w != [] {
      var (ns', next) := Step(ns, cur, w[0]);
      AddCounts(ns', next, w[1..]);
      AddUnfolds(ns, cur, w, ns', next);
      var r := AddFrom(ns', next, w[1..]);
      var entered := ChildWith(ns, ns[cur].children, w[0]).Some?;
      assert Entered(ns, cur, w) == (if entered then {next} else {}) + Entered(ns', next, w[1..]);
      forall i | 0 <= i < |ns|
        ensures r[i].count == ns[i].count + if i in Entered(ns, cur, w) then 1 else 0
      {
        assert ns'[i].count == ns[i].count + if entered && i == next then 1 else 0;
      }
    } else {
      assert Entered(ns, cur, w) == {};
      assert AddFrom(ns, cur, w) == ns[cur := ns[cur].(isEndOfWord := true)];
    }
  }

  /** `add` does not count the node it starts at: the root's counter
      stays 1. */
  lemma AddKeepsStartCount(ns: seq<Node>, cur: nat, w: string)
    requires Linked(ns) && cur < |ns|
    ensures cur < |AddFrom(ns, cur, w)| && AddFrom(ns, cur, w)[cur].count == ns[cur].count
  {
    AddCounts(ns, cur, w);
  }

  /** Under `Ascends`, a pass of `add` continues at a child of `cur` that
      holds the character. */
  lemma AscendsStep(ns: seq<Node>, cur: nat, w: string)
    requires Linked(ns) && cur < |ns| && w != [] && GreatestIfCreated(ns, cur, w[0])
    ensures var (ns', next) := Step(ns, cur, w[0]);
      next in ns'[cur].children && ns'[next].data == w[0]
  {
    var kids := ns[cur].children;
    if ChildWith(ns, kids, w[0]).None? {
      InsertGreatestAppends(ns + [Fresh(w[0])], kids, |ns|);
    }
  }

  /** Under `Ascends`, the child the first pass of `add(w)` continues at is
      the one a walk of `w[0]` finds once `add` is done. */
  lemma FirstChildAfterAdd(ns: seq<Node>, cur: nat, w: string, ns': seq<Node>, next: nat)
    requires WellFormed(ns) && cur < |ns| && w != [] && GreatestIfCreated(ns, cur, w[0])
    requires (ns', next) == Step(ns, cur, w[0])
    ensures cur < |AddFrom(ns', next, w[1..])|
    ensures var r := AddFrom(ns', next, w[1..]);
      ChildWith(r, r[cur].children, w[0]) == Some(next)
  {
    var r := AddFrom(ns', next, w[1..]);
    StepWellFormed(ns, cur, w[0]);
    AddGrows(ns', next, w[1..]);
    AddFromWellFormed(ns', next, w[1..]);
    AscendsStep(ns, cur, w);
    assert next in r[cur].children;
    var j :| 0 <= j < |r[cur].children| && r[cur].children[j] == next;
    ChildWithUnique(r, r[cur].children, j);
  }

  /** A walk through a found child continues from that child. */
  lemma WalkThroughChild(ns: seq<Node>, cur: nat, v: string, c: nat)
    requires Linked(ns) && cur < |ns| && v != []
    requires ChildWith(ns, ns[cur].children, v[0]) == Some(c)
    ensures Walk(ns, cur, v) == Walk(ns, c, v[1..])
    ensures WalkCount(ns, cur, v) == WalkCount(ns, c, v[1..])
  {
    assert Walk(ns, cur, v) == Walk(ns, c, v[1..]);
  }

  /** When every created child is the greatest among its siblings, the walk
      of `add` spells `w`: afterwards `w` leads from `cur` to the node the
      walk ended at, and that node ends a word. */
  lemma {:induction false} AddSpellsWord(ns: seq<Node>, cur: nat, w: string)
    requires WellFormed(ns) && cur < |ns| && Ascends(ns, cur, w)
    ensures var r := AddFrom(ns, cur, w);
      match Walk(r, cur, w)
      case None => false
      case Some(e) => e == AddPath(ns, cur, w)[|w|] && r[e].isEndOfWord
    decreases |w|
  {
    AddMarksEnd(ns, cur, w);
    if w != [] {
      var (ns', next) := Step(ns, cur, w[0]);
      StepWellFormed(ns, cur, w[0]);
      AddSpellsWord(ns', next, w[1..]);
      AddUnfolds(ns, cur, w, ns', next);
      FirstChildAfterAdd(ns, cur, w, ns', next);
      WalkThroughChild(AddFrom(ns', next, w[1..]), cur, w, next);
    }
  }

  /** When the first pass over `v` enters an existing child, that child
      gains one: for a one-character `v` it is the node `v` leads to. */
  lemma EnteredFirstCount(ns: seq<Node>, cur: nat, v: string)
    requires Linked(ns) && cur < |ns| && |v| == 1
    requires ChildWith(ns, ns[cur].children, v[0]).Some?
    ensures Step(ns, cur, v[0]).0[Step(ns, cur, v[0]).1].count == WalkCount(ns, cur, v) + 1
  {
    assert v[1..] == [];
    assert Walk(ns, cur, v) == ChildWith(ns, ns[cur].children, v[0]);
  }

  /** Counting `v[0]`'s existing child `c` once more leaves the walks below
      it unchanged. */
  lemma EnteredDeeperCount(ns: seq<Node>, cur: nat, v: string, c: nat)
    requires Linked(ns) && cur < |ns| && |v| >= 2
    requires ChildWith(ns, ns[cur].children, v[0]) == Some(c)
    ensures Linked(ns[c := ns[c].(count := ns[c].count + 1)])
    ensures WalkCount(ns[c := ns[c].(count := ns[c].count + 1)], c, v[1..]) == WalkCount(ns, cur, v)
  {
    var ns1 := ns[c := ns[c].(count := ns[c].count + 1)];
    assert Walk(ns, cur, v) == Walk(ns, c, v[1..]);
    WalkIgnoresCount(ns, c, c, v[1..]);
    var r := Walk(ns, c, v[1..]);
    WalkCountOf(ns, cur, v, r);
    WalkCountOf(ns1, c, v[1..], r);
    if r.Some? {
      assert c < r.value && ns1[r.value].count == ns[r.value].count;
    }
  }

  /** The counter a walk reads, once the walk is known. */
  lemma WalkCountOf(ns: seq<Node>, cur: nat, u: string, r: Option<nat>)
    requires Linked(ns) && cur < |ns| && Walk(ns, cur, u) == r
    ensures WalkCount(ns, cur, u) == if r.Some? then ns[r.value].count else 0
  {
  }

  /** When the first pass over `v` creates the child it continues at, that
      child starts at one and `v` was not a path before. */
  lemma CreatedFirstCount(ns: seq<Node>, cur: nat, v: string)
    requires Linked(ns) && cur < |ns| && |v| >= 1
    requires ChildWith(ns, ns[cur].children, v[0]).None? && GreatestIfCreated(ns, cur, v[0])
    ensures Step(ns, cur, v[0]).0[Step(ns, cur, v[0]).1] == Fresh(v[0])
    ensures Step(ns, cur, v[0]).1 == |ns|
    ensures WalkCount(ns, cur, v) == 0
  {
    InsertGreatestAppends(ns + [Fresh(v[0])], ns[cur].children, |ns|);
    assert Walk(ns, cur, v) == None;
  }

  /** Nothing hangs below a fresh node. */
  lemma FreshLeafCount(ns: seq<Node>, x: nat, u: string)
    requires Linked(ns) && x < |ns| && ns[x].children == [] && u != []
    ensures WalkCount(ns, x, u) == 0
  {
    assert Walk(ns, x, u) == None;
  }

  /** How counts along `v` before a pass of `add` relate to the arena
      `ns'` after it and the node `next` it continues at. */
  lemma PassCounts(ns: seq<Node>, cur: nat, v: string, ns': seq<Node>, next: nat)
    requires Linked(ns) && cur < |ns| && |v| >= 1 && GreatestIfCreated(ns, cur, v[0])
    requires (ns', next) == Step(ns, cur, v[0])
    ensures |v| == 1 ==> ns'[next].count == WalkCount(ns, cur, v) + 1
    ensures |v| >= 2 ==> WalkCount(ns', next, v[1..]) == WalkCount(ns, cur, v)
  {
    match ChildWith(ns, ns[cur].children, v[0])
    case Some(c) =>
      if |v| == 1 {
        EnteredFirstCount(ns, cur, v);
      } else {
        EnteredDeeperCount(ns, cur, v, c);
      }
    case None =>
      CreatedFirstCount(ns, cur, v);
      if |v| >= 2 {
        FreshLeafCount(ns', next, v[1..]);
      }
  }

  /** Under `Ascends`, `add` raises the count of the first character of
      `w` below `cur` by exactly one. */
  lemma AddCountsFirst(ns: seq<Node>, cur: nat, w: string)
    requires WellFormed(ns) && cur < |ns| && w != [] && GreatestIfCreated(ns, cur, w[0])
    ensures WalkCount(AddFrom(ns, cur, w), cur, w[..1]) == WalkCount(ns, cur, w[..1]) + 1
  {
    var (ns', next) := Step(ns, cur, w[0]);
    var r := AddFrom(ns', next, w[1..]);
    var v := w[..1];
    assert v[0] == w[0] && v[1..] == [];
    FirstChildAfterAdd(ns, cur, w, ns', next);
    WalkThroughChild(r, cur, v, next);
    PassCounts(ns, cur, v, ns', next);
    AddKeepsStartCount(ns', next, w[1..]);
    WalkCountOf(r, next, [], Some(next));
  }

  /** After the first pass of an ascending `add`, the rest of the walk is
      ascending too, from a well-formed arena. */
  lemma AscendsRest(ns: seq<Node>, cur: nat, w: string, ns': seq<Node>, next: nat)
    requires WellFormed(ns) && cur < |ns| && w != [] && Ascends(ns, cur, w)
    requires (ns', next) == Step(ns, cur, w[0])
    ensures WellFormed(ns') && next < |ns'| && GreatestIfCreated(ns, cur, w[0])
    ensures Ascends(ns', next, w[1..])
  {
    StepWellFormed(ns, cur, w[0]);
  }

  /** The inductive step of `AddCountsPrefixes`: if the rest of the walk
      below `next` counts `w[1..k]` once more, the whole walk counts
      `w[..k]` once more. */
  lemma AddCountsDeeper(ns: seq<Node>, cur: nat, w: string, k: nat, ns': seq<Node>, next: nat)
    requires WellFormed(ns) && cur < |ns| && 2 <= k <= |w| && GreatestIfCreated(ns, cur, w[0])
    requires (ns', next) == Step(ns, cur, w[0])
    requires WalkCount(AddFrom(ns', next, w[1..]), next, w[1..][..k - 1])
      == WalkCount(ns', next, w[1..][..k - 1]) + 1
    ensures WalkCount(AddFrom(ns, cur, w), cur, w[..k]) == WalkCount(ns, cur, w[..k]) + 1
  {
    var r := AddFrom(ns', next, w[1..]);
    var v := w[..k];
    PrefixTail(w, k);
    AddUnfolds(ns, cur, w, ns', next);
    assert WalkCount(r, cur, v) == WalkCount(r, next, v[1..]) by {
      FirstChildAfterAdd(ns, cur, w, ns', next);
      WalkThroughChild(r, cur, v, next);
    }
    assert WalkCount(ns', next, v[1..]) == WalkCount(ns, cur, v) by {
      PassCounts(ns, cur, v, ns', next);
    }
  }

  /** Under `Ascends`, `add` raises the count of every non-empty prefix of
      `w` below `cur` by exactly one. */
  lemma {:induction false} AddCountsPrefixes(ns: seq<Node>, cur: nat, w: string, k: nat)
    requires WellFormed(ns) && cur < |ns| && Ascends(ns, cur, w)
    requires 1 <= k <= |w|
    ensures WalkCount(AddFrom(ns, cur, w), cur, w[..k]) == WalkCount(ns, cur, w[..k]) + 1
    decreases |w|
  {
    if k == 1 {
      AddCountsFirst(ns, cur, w);
    } else {
      var (ns', next) := Step(ns, cur, w[0]);
      var u := w[1..][..k - 1];
      assert WalkCount(AddFrom(ns', next, w[1..]), next, u) == WalkCount(ns', next, u) + 1 by {
        AscendsRest(ns, cur, w, ns', next);
        AddCountsPrefixes(ns', next, w[1..], k - 1);
      }
      AddCountsDeeper(ns, cur, w, k, ns', next);
    }
  }

  /** `findPrefix` after `add(w)` under `Ascends` from the root: every
      non-empty prefix of `w` is counted once more, and `w` itself is now a
      word of the trie, so `findPrefix(w) >= 1` (Trie.cpp:41-103). */
  lemma AddThenFindPrefix(ns: seq<Node>, w: string, k: nat)
    requires WellFormed(ns) && Ascends(ns, 0, w) && 1 <= k <= |w|
    ensures PrefixCount(AddFrom(ns, 0, w), w[..k]) == PrefixCount(ns, w[..k]) + 1
    ensures IsWord(AddFrom(ns, 0, w), w) && PrefixCount(AddFrom(ns, 0, w), w) >= 1
  {
    AddFromWellFormed(ns, 0, w);
    AddCountsPrefixes(ns, 0, w, k);
    AddCountsPrefixes(ns, 0, w, |w|);
    assert w[..|w|] == w;
    AddSpellsWord(ns, 0, w);
    var (ns', next) := Step(ns, 0, w[0]);
    FirstChildAfterAdd(ns, 0, w, ns', next);
  }

  /** A word whose path already exists is added without creating nodes, so
      `Ascends` holds for it: adding the same word again keeps counting. */
  lemma {:induction false} ExistingPathAscends(ns: seq<Node>, cur: nat, w: string)
    requires WellFormed(ns) && cur < |ns| && Walk(ns, cur, w).Some?
    ensures Ascends(ns, cur, w)
    decreases |w|
  {
    if w != [] {
      var c := ChildWith(ns, ns[cur].children, w[0]).value;
      var ns' := ns[c := ns[c].(count := ns[c].count + 1)];
      assert Step(ns, cur, w[0]) == (ns', c);
      EnterWellFormed(ns, c);
      WalkIgnoresCount(ns, c, c, w[1..]);
      ExistingPathAscends(ns', c, w[1..]);
    }
  }


  // ---------------------------------------------------------------------
  // search

  /** `search` answers a word of the trie (Trie.cpp:134-139). */
  lemma SearchFindsWord(ns: seq<Node>, w: string)
    requires WellFormed(ns) && ns[0].children != [] && SearchDefined(ns, w)
    ensures IsWord(ns, SearchResult(ns, w))
  {
    var m := MatchFrom(ns, 0, w);
    MatchIsLongestPrefix(ns, 0, w);
    WalkConcat(ns, 0, w[..m.0], Descent(ns, m.1));
  }

  /** A walk that fails on a prefix fails on everything longer. */
  lemma WalkPrefixClosed(ns: seq<Node>, w: string, i: nat, j: nat)
    requires Linked(ns) && |ns| >= 1 && i <= j <= |w|
    requires Walk(ns, 0, w[..j]).Some?
    ensures Walk(ns, 0, w[..i]).Some?
  {
    PrefixSplits(w, i, j);
    WalkConcat(ns, 0, w[..i], w[i..j]);
  }

  lemma PrefixTail(w: string, k: nat)
    requires 1 <= k <= |w|
    ensures w[..k][0] == w[0] && w[..k][1..] == w[1..][..k - 1]
  {
  }

  lemma PrefixSplits(w: string, i: nat, j: nat)
    requires i <= j <= |w|
    ensures w[..j] == w[..i] + w[i..j]
  {
  }

  /** `search` keeps every prefix of the input that the trie contains
      (Trie.cpp:117-132): the result starts with the longest one. */
  lemma SearchKeepsPresentPrefixes(ns: seq<Node>, w: string)
    requires WellFormed(ns) && ns[0].children != [] && SearchDefined(ns, w)
    ensures forall j :: 0 <= j <= |w| && Walk(ns, 0, w[..j]).Some? ==>
      j <= |SearchResult(ns, w)| && SearchResult(ns, w)[..j] == w[..j]
  {
    var k := MatchFrom(ns, 0, w).0;
    MatchIsLongestPrefix(ns, 0, w);
    forall j | 0 <= j <= |w| && Walk(ns, 0, w[..j]).Some?
      ensures j <= |SearchResult(ns, w)| && SearchResult(ns, w)[..j] == w[..j]
    {
      if j > k {
        WalkPrefixClosed(ns, w, k + 1, j);
      }
    }
  }

  /** `a <= b` carries over to `p + a <= p + b`. */
  lemma {:induction false} LexLeqPrefix(p: string, a: string, b: string)
    requires LexLeq(a, b)
    ensures LexLeq(p + a, p + b)
    decreases |p|
  {
    if p == [] {
      assert p + a == a && p + b == b;
    } else {
      LexLeqPrefix(p[1..], a, b);
      assert (p + a)[0] == p[0] == (p + b)[0];
      assert (p + a)[1..] == p[1..] + a && (p + b)[1..] == p[1..] + b;
    }
  }

  /** With sorted children, taking the first child repeatedly reaches the
      smallest word below `n`. */
  lemma {:induction false} DescentIsSmallest(ns: seq<Node>, n: nat, v: string)
    requires WellFormed(ns) && n < |ns| && DescentEnds(ns, n)
    requires Walk(ns, n, v).Some? && ns[Walk(ns, n, v).value].isEndOfWord
    ensures LexLeq(Descent(ns, n), v)
    decreases |ns| - n
  {
    if !ns[n].isEndOfWord {
      var kids := ns[n].children;
      var c0 := kids[0];
      var c := ChildWith(ns, kids, v[0]).value;
      var j :| 0 <= j < |kids| && kids[j] == c;
      assert ns[c0].data <= v[0] by {
        assert j == 0 || ns[kids[0]].data < ns[kids[j]].data;
      }
      if ns[c0].data == v[0] {
        ChildWithUnique(ns, kids, 0);
        DescentIsSmallest(ns, c0, v[1..]);
      }
    }
  }

  /** `search` answers the smallest word, in lexicographic order of
      character codes, among the words of the trie that continue the prefix
      it keeps (Trie.cpp:107, 134-139). */
  lemma SearchIsSmallestCompletion(ns: seq<Node>, w: string, v: string)
    requires WellFormed(ns) && ns[0].children != [] && SearchDefined(ns, w)
    requires IsWord(ns, w[..MatchFrom(ns, 0, w).0] + v)
    ensures LexLeq(SearchResult(ns, w), w[..MatchFrom(ns, 0, w).0] + v)
  {
    var m := MatchFrom(ns, 0, w);
    MatchIsLongestPrefix(ns, 0, w);
    WalkConcat(ns, 0, w[..m.0], v);
    DescentIsSmallest(ns, m.1, v);
    LexLeqPrefix(w[..m.0], Descent(ns, m.1), v);
  }

  /** Every childless node other than `cur` ends a word. */
  ghost predicate LeavesEndWordsBut(ns: seq<Node>, cur: int)
  {
    forall i :: 0 < i < |ns| && i != cur && ns[i].children == [] ==> ns[i].isEndOfWord
  }

  /** Every childless node other than the root ends a word: `search` never
      steps into an empty vector. */
  ghost predicate LeavesEndWords(ns: seq<Node>)
  {
    LeavesEndWordsBut(ns, 0)
  }

  /** From a non-root node, or a root with children, the first-child
      descent ends when every leaf ends a word. */
  lemma {:induction false} DescentEndsAtLeaves(ns: seq<Node>, n: nat)
    requires Linked(ns) && LeavesEndWords(ns) && n < |ns|
    requires n > 0 || ns[n].children != []
    ensures DescentEnds(ns, n)
    decreases |ns| - n
  {
    if !ns[n].isEndOfWord {
      DescentEndsAtLeaves(ns, ns[n].children[0]);
    }
  }

  /** In a trie whose leaves all end words, `search` is defined on every
      input. */
  lemma SearchDefinedWhenLeavesEndWords(ns: seq<Node>, w: string)
    requires Linked(ns) && |ns| >= 1 && LeavesEndWords(ns)
    ensures SearchDefined(ns, w)
  {
    if ns[0].children != [] {
      DescentEndsAtLeaves(ns, MatchFrom(ns, 0, w).1);
    }
  }

  /** A pass of `add` under `Ascends` leaves at most the node it continues
      at as a leaf that does not end a word. */
  lemma StepKeepsLeaves(ns: seq<Node>, cur: nat, ch: char, ns': seq<Node>, next: nat)
    requires Linked(ns) && cur < |ns| && GreatestIfCreated(ns, cur, ch)
    requires LeavesEndWordsBut(ns, cur) && (ns', next) == Step(ns, cur, ch)
    ensures LeavesEndWordsBut(ns', next)
  {
    var kids := ns[cur].children;
    if ChildWith(ns, kids, ch).None? {
      InsertGreatestAppends(ns + [Fresh(ch)], kids, |ns|);
      assert next == |ns| && ns'[cur].children == kids + [|ns|];
    }
  }

  /** `add` under `Ascends` leaves every leaf ending a word, so on tries
      built that way `search` is always defined. */
  lemma {:induction false} AddKeepsLeavesEndingWords(ns: seq<Node>, cur: nat, w: string)
    requires Linked(ns) && cur < |ns| && Ascends(ns, cur, w) && LeavesEndWordsBut(ns, cur)
    ensures LeavesEndWords(AddFrom(ns, cur, w))
    decreases |w|
  {
    if w != [] {
      var (ns', next) := Step(ns, cur, w[0]);
      StepKeepsLeaves(ns, cur, w[0], ns', next);
      AddKeepsLeavesEndingWords(ns', next, w[1..]);
    }
  }

  /** The walk of `add` is not repaired when a smaller character arrives
      later: adding "b" and then "a" to an empty trie marks the 'b' node a
      second time and leaves the new 'a' leaf without an end of word, so
      "a" is not a word and `search` would run off that leaf. */
  lemma OutOfOrderAdd()
    ensures var t := AddFrom(AddFrom([Root], 0, "b"), 0, "a");
      && t == [Node('\0', 1, false, [2, 1]), Node('b', 1, true, []), Node('a', 1, false, [])]
      && IsWord(t, "b") && !IsWord(t, "a") && !LeavesEndWords(t)
  {
    AddFirstWord();
    AddSmallerWord();
    var t := [Node('\0', 1, false, [2, 1]), Node('b', 1, true, []), Node('a', 1, false, [])];
    assert ChildWith(t, [2, 1], 'b') == Some(1);
    assert ChildWith(t, [2, 1], 'a') == Some(2);
    assert "b"[1..] == [] && "a"[1..] == [];
  }

  /** On the arena of `OutOfOrderAdd`, `search("a")` and `search("")` both end
      on the unmarked, childless 'a' leaf and would dereference the begin of
      its empty vector (Trie.cpp:136); `search("b")` is defined. */
  lemma OutOfOrderSearchUndefined()
    ensures var t := AddFrom(AddFrom([Root], 0, "b"), 0, "a");
      && Linked(t) && |t| >= 1
      && !SearchDefined(t, "a") && !SearchDefined(t, "") && SearchDefined(t, "b")
  {
    OutOfOrderAdd();
    var t := [Node('\0', 1, false, [2, 1]), Node('b', 1, true, []), Node('a', 1, false, [])];
    assert Linked(t) by {
      assert forall i, j :: 0 <= i < |t| && 0 <= j < |t[i].children| ==> i < t[i].children[j] < |t|;
    }
    assert ChildWith(t, [2, 1], 'a') == Some(2);
    assert ChildWith(t, [2, 1], 'b') == Some(1);
    assert "a"[1..] == [] && "b"[1..] == [];
    assert MatchFrom(t, 0, "a") == (1, 2);
    assert MatchFrom(t, 0, "b") == (1, 1);
    assert !DescentEnds(t, 2) && DescentEnds(t, 1);
  }

  /** Why `AddThenFindPrefix` excludes the empty word: `add("")` on an empty
      trie marks the root (Trie.cpp:71), yet the root is still childless, so
      `findPrefix("")` answers 0 (Trie.cpp:85-86). */
  lemma AddEmptyWordToEmptyTrie()
    ensures var t := AddFrom([Root], 0, []);
      t[0].isEndOfWord && PrefixCount(t, []) == 0
  {
    assert AddFrom([Root], 0, []) == [Root.(isEndOfWord := true)];
  }

  /** `add("b")` on an empty trie. */
  lemma AddFirstWord()
    ensures AddFrom([Root], 0, "b") == [Node('\0', 1, false, [1]), Node('b', 1, true, [])]
  {
    var t1 := [Root];
    var t2 := [Node('\0', 1, false, [1]), Node('b', 1, false, [])];
    assert ChildWith(t1, [], 'b') == None;
    assert InsertByData(t1 + [Fresh('b')], [], 1) == [1];
    var g1 := t1 + [Fresh('b')];
    assert g1[0 := g1[0].(children := [1])] == t2;
    assert Step(t1, 0, 'b') == (t2, 1);
    assert "b"[1..] == [];
  }

  /** `add("a")` after `add("b")`: the walk continues at the 'b' node. */
  lemma AddSmallerWord()
    ensures var t3 := [Node('\0', 1, false, [1]), Node('b', 1, true, [])];
      AddFrom(t3, 0, "a") == [Node('\0', 1, false, [2, 1]), Node('b', 1, true, []), Node('a', 1, false, [])]
  {
    var t3 := [Node('\0', 1, false, [1]), Node('b', 1, true, [])];
    assert InsertByData(t3 + [Fresh('a')], [1], 2) == [2, 1];
    var t4 := [Node('\0', 1, false, [2, 1]), Node('b', 1, true, []), Node('a', 1, false, [])];
    assert ChildWith(t3, [1], 'a') == None by {
      assert ChildWith(t3, [1][1..], 'a') == None;
    }
    var g3 := t3 + [Fresh('a')];
    assert g3[0 := g3[0].(children := [2, 1])] == t4;
    assert Step(t3, 0, 'a') == (t4, 1);
    assert "a"[1..] == [];
  }

}
