/** `class TrieNode` of Trie.cpp. The object is the root; `nodes` is the
    arena holding it (index 0) and every node below it, and the methods
    update it in place as the C++ member functions update the tree. */
module Trie {
  import opened TrieModel

  class TrieNode {
    var nodes: seq<Node>

    ghost predicate Valid()
      reads this
    {
      WellFormed(nodes)
    }

    /** `TrieNode()`: an empty trie, a lone root. */
    constructor ()
      ensures Valid() && nodes == [Root]
    {
      nodes := [Root];
    }

    /** The scan `for (auto &child : node->children) if (child.data == ch)
        ... break;` shared by the three operations. */
    method FindChild(node: nat, ch: char) returns (r: Option<nat>)
      requires Linked(nodes) && node < |nodes|
      ensures r == ChildWith(nodes, nodes[node].children, ch)
    {
      var kids := nodes[node].children;
      var j := 0;
      while j < |kids|
        invariant 0 <= j <= |kids|
        invariant forall k :: 0 <= k < j ==> nodes[kids[k]].data != ch
      {
        if nodes[kids[j]].data == ch {
          ChildWithAt(nodes, kids, ch, j);
          return Some(kids[j]);
        }
        j := j + 1;
      }
      return None;
    }

    /** One pass of the loop of `add` over character `ch` at `node`. */
    method AddChar(node: nat, ch: char) returns (next: nat)
      requires Valid() && node < |nodes|
      modifies this
      ensures Valid() && (nodes, next) == Step(old(nodes), node, ch)
    {
      StepWellFormed(nodes, node, ch);
      var found := FindChild(node, ch);
      match found
      case Some(child) =>
        nodes := nodes[child := nodes[child].(count := nodes[child].count + 1)];
        next := child;
      case None =>
        var kids := nodes[node].children;
        // push_back, then remember the back slot of the vector
        var created := |nodes|;
        nodes := nodes + [Fresh(ch)];
        var back := |kids|;
        var sorted := InsertByData(nodes, kids, created);
        nodes := nodes[node := nodes[node].(children := sorted)];
        // the walk continues at whatever the sort left in that slot
        next := sorted[back];
    }

    /** `add`: walk down from the root, counting each child entered and
        creating missing ones, then mark the last node reached. */
    method Add(input: string)
      requires Valid()
      modifies this
      ensures Valid() && nodes == AddFrom(old(nodes), 0, input)
    {
      var node: nat := 0;
      for i := 0 to |input|
        invariant Valid() && node < |nodes|
        invariant AddFrom(nodes, node, input[i..]) == AddFrom(old(nodes), 0, input)
      {
        node := AddChar(node, input[i]);
      }
      MarkWellFormed(nodes, node);
      nodes := nodes[node := nodes[node].(isEndOfWord := true)];
    }

    /** `findPrefix`: the counter of the node `input` leads to. It is 0
        exactly when the trie holds no word or the walk falls off it, since
        every reachable counter is positive; the empty prefix answers the
        root's counter, 1. */
    method FindPrefix(input: string) returns (r: nat)
      requires Valid()
      ensures r == PrefixCount(nodes, input)
      ensures r == 0 <==> nodes[0].children == [] || Walk(nodes, 0, input).None?
      ensures nodes[0].children != [] && input == [] ==> r == 1
    {
      if |nodes[0].children| == 0 {
        return 0;
      }
      var node: nat := 0;
      for i := 0 to |input|
        invariant node < |nodes|
        invariant Walk(nodes, node, input[i..]) == Walk(nodes, 0, input)
      {
        var found := FindChild(node, input[i]);
        match found
        case None =>
          return 0;
        case Some(child) =>
          node := child;
      }
      return nodes[node].count;
    }

    /** The last loop of `search`: take the first child until a node ends a
        word, collecting the characters passed. */
    method Descend(start: nat) returns (tail: string)
      requires Linked(nodes) && start < |nodes| && DescentEnds(nodes, start)
      ensures tail == Descent(nodes, start)
    {
      tail := "";
      var ns := nodes;
      var node := start;
      while !ns[node].isEndOfWord
        invariant node < |ns| && DescentEnds(ns, node)
        invariant tail + Descent(ns, node) == Descent(ns, start)
        decreases |ns| - node
      {
        var c := ns[node].children[0];
        assert Descent(ns, node) == [ns[c].data] + Descent(ns, c);
        tail := tail + [ns[c].data];
        node := c;
      }
    }

    /** `search`: the longest prefix of `input` present in the trie, then
        the first child taken repeatedly until an end of word. */
    method Search(input: string) returns (str: string)
      requires Valid() && SearchDefined(nodes, input)
      ensures str == SearchResult(nodes, input)
    {
      str := "";
      if |nodes[0].children| == 0 {
        return;
      }
      ghost var m := MatchFrom(nodes, 0, input);
      var node: nat := 0;
      var i := 0;
      while i < |input|
        invariant 0 <= i <= |input| && node < |nodes|
        invariant str == input[..i]
        invariant m.0 == i + MatchFrom(nodes, node, input[i..]).0
        invariant m.1 == MatchFrom(nodes, node, input[i..]).1
      {
        var found := FindChild(node, input[i]);
        if found.None? {
          assert MatchFrom(nodes, node, input[i..]) == (0, node);
          break;
        }
        str := str + [input[i]];
        node := found.value;
        i := i + 1;
      }
      assert m == (i, node);
      var tail := Descend(node);
      str := str + tail;
    }
  }
}
