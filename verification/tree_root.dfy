/**
  The non-rendering logic of the generic tree component: which node keys are
  expanded and selected, which keys are visible, and how the selection moves.

  Expanded and selected keys are JavaScript `Set`s, modelled as duplicate-free
  sequences in insertion order (see `JsCollections`).
*/
module TreeRoot {
  import opened Results
  import opened JsCollections
  import JsStrings

  type Key = string

  /**
    A lazy tree node as the component reads it: its key, whether it is a
    container, and its cached children in order (empty when none are cached).
  */
  datatype Node = Node(key: Key, isContainer: bool, children: seq<Node>)

  datatype TreeState = TreeState(roots: seq<Node>, expandedKeys: seq<Key>, selectedKeys: seq<Key>)

  /** The optional `forceHas` argument of `toggleSetHas`. */
  datatype Force = Undefined | Null | Forced(value: bool)

  /** `toggleSetHas` returns the updated set and whether the value was added. */
  datatype Toggled = Toggled(keys: seq<Key>, added: bool)

  /**
    `toggleSetHas`: with no `forceHas` membership flips; a truthy one adds the
    value, a `false` or `null` one deletes it. The result says whether the value
    is now present, and no other element changes.
  */
  function ToggleSetHas(s: seq<Key>, value: Key, forceHas: Force): (r: Toggled)
    ensures r.added <==> value in r.keys
    ensures forceHas == Undefined ==> (r.added <==> value !in s)
    ensures forceHas == Forced(true) ==> r.added
    ensures forceHas == Forced(false) || forceHas == Null ==> !r.added
    ensures forall x :: x != value ==> (x in r.keys <==> x in s)
    ensures Unique(s) ==> Unique(r.keys)
  {
    if forceHas == Forced(true) || (forceHas == Undefined && value !in s) then Toggled(Add(s, value), true)
    else Toggled(Delete(s, value), false)
  }

  /** Toggling the same value twice without forcing leaves every membership as it was. */
  lemma ToggleTwiceRestores(s: seq<Key>, value: Key)
    ensures var twice := ToggleSetHas(ToggleSetHas(s, value, Undefined).keys, value, Undefined).keys;
            forall x :: x in twice <==> x in s
  {
  }

  /** The number of nodes in a tree, cached descendants included. */
  function Size(n: Node): nat
    decreases n
  {
    1 + ForestSize(n.children)
  }

  function ForestSize(ns: seq<Node>): nat
    decreases ns
  {
    if |ns| == 0 then 0 else Size(ns[0]) + ForestSize(ns[1..])
  }

  /** The keys `forEachCachedNode` visits: the node and every cached descendant, in preorder. */
  function CachedKeys(n: Node): seq<Key>
    decreases n
  {
    [n.key] + ForestCachedKeys(n.children)
  }

  function ForestCachedKeys(ns: seq<Node>): seq<Key>
    decreases ns
  {
    if |ns| == 0 then [] else CachedKeys(ns[0]) + ForestCachedKeys(ns[1..])
  }

  /**
    The keys rendered for a subtree: the node, then the visible keys of each
    cached child in order, but only when the node is an expanded container.
  */
  function VisibleKeys(n: Node, expanded: seq<Key>): seq<Key>
    decreases n
  {
    [n.key] + (if n.isContainer && n.key in expanded then ForestVisibleKeys(n.children, expanded) else [])
  }

  /** The visible keys of each tree in turn. */
  function ForestVisibleKeys(ns: seq<Node>, expanded: seq<Key>): seq<Key>
    decreases ns
  {
    if |ns| == 0 then [] else VisibleKeys(ns[0], expanded) + ForestVisibleKeys(ns[1..], expanded)
  }

  lemma {:induction false} ForestVisibleAppend(a: seq<Node>, b: seq<Node>, expanded: seq<Key>)
    ensures ForestVisibleKeys(a + b, expanded) == ForestVisibleKeys(a, expanded) + ForestVisibleKeys(b, expanded)
    decreases |a|
  {
    if |a| > 0 {
      assert (a + b)[1..] == a[1..] + b;
      ForestVisibleAppend(a[1..], b, expanded);
    } else {
      assert a + b == b;
    }
  }

  lemma {:induction false} ForestSizeAppend(a: seq<Node>, b: seq<Node>)
    ensures ForestSize(a + b) == ForestSize(a) + ForestSize(b)
    decreases |a|
  {
    if |a| > 0 {
      assert (a + b)[1..] == a[1..] + b;
      ForestSizeAppend(a[1..], b);
    } else {
      assert a + b == b;
    }
  }

  function Reverse<T>(s: seq<T>): (r: seq<T>)
    ensures |r| == |s|
    ensures forall i :: 0 <= i < |s| ==> r[i] == s[|s| - 1 - i]
  {
    if |s| == 0 then [] else Reverse(s[1..]) + [s[0]]
  }

  lemma {:induction false} ForestSizeReverse(ns: seq<Node>)
    ensures ForestSize(Reverse(ns)) == ForestSize(ns)
    decreases |ns|
  {
    if |ns| > 0 {
      ForestSizeReverse(ns[1..]);
      ForestSizeAppend(Reverse(ns[1..]), [ns[0]]);
      assert [ns[0]][1..] == [];
    }
  }

  /** What the traversal stack will still yield: the top entry's visible keys first. */
  function StackKeys(stack: seq<Node>, expanded: seq<Key>): seq<Key>
    decreases |stack|
  {
    if |stack| == 0 then []
    else VisibleKeys(stack[|stack| - 1], expanded) + StackKeys(stack[..|stack| - 1], expanded)
  }

  /** Pushing children in reverse order makes the stack yield them in their own order. */
  lemma {:induction false} StackPushReversed(rest: seq<Node>, children: seq<Node>, expanded: seq<Key>)
    ensures StackKeys(rest + Reverse(children), expanded)
              == ForestVisibleKeys(children, expanded) + StackKeys(rest, expanded)
    decreases |children|
  {
    if |children| == 0 {
      assert rest + Reverse(children) == rest;
    } else {
      var s := rest + Reverse(children);
      assert s == (rest + Reverse(children[1..])) + [children[0]];
      assert s[..|s| - 1] == rest + Reverse(children[1..]);
      StackPushReversed(rest, children[1..], expanded);
    }
  }

  /** Popping the top node and pushing its children (reversed, when it is open) keeps what the stack yields. */
  lemma PopStep(rest: seq<Node>, node: Node, expanded: seq<Key>)
    ensures var open := node.isContainer && node.key in expanded;
            var next := if open then rest + Reverse(node.children) else rest;
            StackKeys(rest + [node], expanded) == [node.key] + StackKeys(next, expanded)
            && ForestSize(next) < ForestSize(rest + [node])
  {
    var s := rest + [node];
    assert s[..|s| - 1] == rest;
    ForestSizeAppend(rest, [node]);
    assert [node][1..] == [];
    if node.isContainer && node.key in expanded {
      StackPushReversed(rest, node.children, expanded);
      ForestSizeAppend(rest, Reverse(node.children));
      ForestSizeReverse(node.children);
    }
  }

  /** The inner loop of the `render` traversal: pops until the stack is empty. */
  method DrainStack(start: seq<Node>, expanded: seq<Key>, acc: seq<Key>) returns (allKeys: seq<Key>)
    ensures allKeys == acc + StackKeys(start, expanded)
  {
    allKeys := acc;
    var stack := start;
    while |stack| != 0
      invariant allKeys + StackKeys(stack, expanded) == acc + StackKeys(start, expanded)
      decreases ForestSize(stack)
    {
      var node := stack[|stack| - 1];
      var rest := stack[..|stack| - 1];
      assert stack == rest + [node];
      PopStep(rest, node, expanded);
      allKeys := allKeys + [node.key];
      if node.isContainer && node.key in expanded {
        stack := rest + Reverse(node.children);
      } else {
        stack := rest;
      }
    }
  }

  /**
    The traversal in `render`: each root in turn, with an explicit stack; a
    popped node's key is recorded and, when it is an expanded container, its
    cached children are pushed in reverse so that they pop in order. The keys
    come out as the preorder `ForestVisibleKeys`.
  */
  method RenderKeys(roots: seq<Node>, expanded: seq<Key>) returns (allKeys: seq<Key>)
    ensures allKeys == ForestVisibleKeys(roots, expanded)
  {
    allKeys := [];
    var r := 0;
    while r < |roots|
      invariant 0 <= r <= |roots|
      invariant allKeys == ForestVisibleKeys(roots[..r], expanded)
    {
      assert StackKeys([roots[r]], expanded) == VisibleKeys(roots[r], expanded);
      allKeys := DrainStack([roots[r]], expanded, allKeys);
      ForestVisibleAppend(roots[..r], [roots[r]], expanded);
      assert roots[..r + 1] == roots[..r] + [roots[r]];
      assert [roots[r]][1..] == [];
      r := r + 1;
    }
    assert roots[..|roots|] == roots;
  }

  /** Every visible key is the key of a cached node. */
  lemma {:induction false} VisibleAreCached(n: Node, expanded: seq<Key>)
    ensures forall k :: k in VisibleKeys(n, expanded) ==> k in CachedKeys(n)
    decreases n
  {
    ForestVisibleAreCached(n.children, expanded);
  }

  lemma {:induction false} ForestVisibleAreCached(ns: seq<Node>, expanded: seq<Key>)
    ensures forall k :: k in ForestVisibleKeys(ns, expanded) ==> k in ForestCachedKeys(ns)
    decreases ns
  {
    if |ns| > 0 {
      VisibleAreCached(ns[0], expanded);
      ForestVisibleAreCached(ns[1..], expanded);
    }
  }

  /** Every root key is visible, whatever is expanded. */
  lemma {:induction false} RootsVisible(roots: seq<Node>, expanded: seq<Key>)
    ensures forall i :: 0 <= i < |roots| ==> roots[i].key in ForestVisibleKeys(roots, expanded)
    decreases |roots|
  {
    if |roots| > 0 {
      RootsVisible(roots[1..], expanded);
      forall i | 1 <= i < |roots| ensures roots[i].key in ForestVisibleKeys(roots, expanded) {
        assert roots[i] == roots[1..][i - 1];
      }
    }
  }

  /**
    `getInitialState`: explicit initial key lists become the sets; otherwise
    every root is expanded and the first root, if any, is selected.
  */
  function InitialState(roots: seq<Node>, initialExpandedNodeKeys: Option<seq<Key>>,
                        initialSelectedNodeKeys: Option<seq<Key>>): (r: TreeState)
    ensures r.roots == roots
    ensures Unique(r.expandedKeys) && Unique(r.selectedKeys)
    ensures initialExpandedNodeKeys.Some? ==> forall k :: k in r.expandedKeys <==> k in initialExpandedNodeKeys.value
    ensures initialExpandedNodeKeys.None? ==> forall k :: k in r.expandedKeys <==> exists i :: 0 <= i < |roots| && roots[i].key == k
    ensures initialSelectedNodeKeys.Some? ==> forall k :: k in r.selectedKeys <==> k in initialSelectedNodeKeys.value
    ensures initialSelectedNodeKeys.None? && |roots| == 0 ==> r.selectedKeys == []
    ensures initialSelectedNodeKeys.None? && |roots| > 0 ==> r.selectedKeys == [roots[0].key]
  {
    var rootKeys := seq(|roots|, i requires 0 <= i < |roots| => roots[i].key);
    var selectedKeys :=
      if initialSelectedNodeKeys.Some? then Dedup(initialSelectedNodeKeys.value)
      else Dedup(if |rootKeys| == 0 then [] else [rootKeys[0]]);
    var expandedKeys :=
      Dedup(if initialExpandedNodeKeys.Some? then initialExpandedNodeKeys.value else rootKeys);
    assert forall k :: k in rootKeys <==> exists i :: 0 <= i < |roots| && roots[i].key == k by {
      forall k | k in rootKeys ensures exists i :: 0 <= i < |roots| && roots[i].key == k {
        var i :| 0 <= i < |rootKeys| && rootKeys[i] == k;
        assert roots[i].key == k;
      }
      forall k | exists i :: 0 <= i < |roots| && roots[i].key == k ensures k in rootKeys {
        var i :| 0 <= i < |roots| && roots[i].key == k;
        assert rootKeys[i] == k;
      }
    }
    assert |rootKeys| > 0 ==> Dedup([rootKeys[0]]) == [rootKeys[0]] by {
      if |rootKeys| > 0 {
        DedupOfUnique([rootKeys[0]]);
      }
    }
    TreeState(roots, expandedKeys, selectedKeys)
  }

  /** What `serialize` returns: the two sets as arrays, in insertion order. */
  datatype SerializedTree = SerializedTree(expandedNodeKeys: seq<Key>, selectedNodeKeys: seq<Key>)

  /** `serialize`: both key sets, read back in insertion order. */
  function Serialize(state: TreeState): (r: SerializedTree)
    ensures r.expandedNodeKeys == state.expandedKeys && r.selectedNodeKeys == state.selectedKeys
  {
    SerializedTree(state.expandedKeys, state.selectedKeys)
  }

  /** Restoring a serialized tree through the initial-key props gives back the same sets, in the same order. */
  lemma SerializeRoundTrip(state: TreeState)
    requires Unique(state.expandedKeys) && Unique(state.selectedKeys)
    ensures var saved := Serialize(state);
            InitialState(state.roots, Some(saved.expandedNodeKeys), Some(saved.selectedNodeKeys)) == state
  {
    DedupOfUnique(state.expandedKeys);
    DedupOfUnique(state.selectedKeys);
  }

  /** The keys of a node's cached descendants, the node itself excluded. */
  function DescendantKeys(n: Node): set<Key> {
    set k | k in ForestCachedKeys(n.children)
  }

  /**
    `_toggleNodeExpanded` (with `_deselectDescendants`): the node's key is
    toggled in the expanded set; when it ends up collapsed, the keys of all its
    cached descendants leave the selection, and nothing else does.
  */
  function ToggleNodeExpanded(state: TreeState, node: Node, forceExpanded: Force): (r: TreeState)
    ensures r.roots == state.roots
    ensures node.key in r.expandedKeys <==> ToggleSetHas(state.expandedKeys, node.key, forceExpanded).added
    ensures forall k :: k != node.key ==> (k in r.expandedKeys <==> k in state.expandedKeys)
    ensures node.key in r.expandedKeys ==> r.selectedKeys == state.selectedKeys
    ensures node.key !in r.expandedKeys ==>
              forall k :: k in r.selectedKeys <==> k in state.selectedKeys && k !in DescendantKeys(node)
    ensures Unique(state.expandedKeys) ==> Unique(r.expandedKeys)
    ensures Unique(state.selectedKeys) ==> Unique(r.selectedKeys)
  {
    var toggled := ToggleSetHas(state.expandedKeys, node.key, forceExpanded);
    var selectedKeys := if toggled.added then state.selectedKeys
                        else RemoveAll(state.selectedKeys, DescendantKeys(node));
    state.(expandedKeys := toggled.keys, selectedKeys := selectedKeys)
  }

  /** Collapsing a node keeps its own selection unless one of its descendants shares its key. */
  lemma CollapseKeepsOwnSelection(state: TreeState, node: Node, forceExpanded: Force)
    requires node.key in state.selectedKeys
    requires node.key !in DescendantKeys(node)
    ensures node.key in ToggleNodeExpanded(state, node, forceExpanded).selectedKeys
  {
  }

  /**
    `removeStateForSubtree`: every key of the cached subtree, root included,
    leaves both the expanded and the selected set; all other keys stay.
  */
  function RemoveStateForSubtree(state: TreeState, root: Node): (r: TreeState)
    ensures r.roots == state.roots
    ensures forall k :: k in r.expandedKeys <==> k in state.expandedKeys && k !in CachedKeys(root)
    ensures forall k :: k in r.selectedKeys <==> k in state.selectedKeys && k !in CachedKeys(root)
    ensures Unique(state.expandedKeys) ==> Unique(r.expandedKeys)
    ensures Unique(state.selectedKeys) ==> Unique(r.selectedKeys)
  {
    var subtree := set k | k in CachedKeys(root);
    state.(expandedKeys := RemoveAll(state.expandedKeys, subtree),
           selectedKeys := RemoveAll(state.selectedKeys, subtree))
  }

  /** The earliest index of `allKeys` whose key is selected. */
  function FirstSelectedIndex(allKeys: seq<Key>, selectedKeys: seq<Key>): (r: Option<nat>)
    ensures r.Some? ==> r.value < |allKeys| && allKeys[r.value] in selectedKeys
    ensures r.Some? ==> forall j :: 0 <= j < r.value ==> allKeys[j] !in selectedKeys
    ensures r.None? <==> forall j :: 0 <= j < |allKeys| ==> allKeys[j] !in selectedKeys
  {
    if |allKeys| == 0 then None
    else if allKeys[0] in selectedKeys then Some(0)
    else
      match FirstSelectedIndex(allKeys[1..], selectedKeys)
      case None => None
      case Some(i) => Some(i + 1)
  }

  /**
    `_getFirstSelectedKey`: nothing for an empty selection; otherwise the
    earliest visible key that is selected, or nothing when no selected key is
    visible.
  */
  function FirstSelectedKey(selectedKeys: seq<Key>, allKeys: seq<Key>): (r: Option<Key>)
    ensures |selectedKeys| == 0 ==> r.None?
    ensures r.Some? ==> r.value in selectedKeys && r.value in allKeys
    ensures r.Some? ==> forall j :: 0 <= j < IndexOf(allKeys, r.value) ==> allKeys[j] !in selectedKeys
    ensures r.None? && |selectedKeys| > 0 ==> forall k :: k in allKeys ==> k !in selectedKeys
  {
    if |selectedKeys| == 0 then None
    else
      match FirstSelectedIndex(allKeys, selectedKeys)
      case None => None
      case Some(i) =>
        assert IndexOf(allKeys, allKeys[i]) == i by {
          IndexOfIsFirst(allKeys, i);
        }
        Some(allKeys[i])
  }

  /**
    `_moveSelectionUp`: the key the new one-element selection holds. From the
    first selected key it moves one index up, staying at index 0; with no
    (truthy) selected key it picks the last visible key. `None` is the
    `undefined` that `allKeys[-1]` yields when nothing is visible.
  */
  function MoveSelectionUp(selectedKeys: seq<Key>, allKeys: seq<Key>): (r: Option<Key>)
    ensures |allKeys| == 0 <==> r.None?
    ensures r.Some? ==> r.value in allKeys
    ensures var first := FirstSelectedKey(selectedKeys, allKeys);
            |allKeys| > 0 && !JsStrings.Truthy(first) ==> r == Some(allKeys[|allKeys| - 1])
    ensures var first := FirstSelectedKey(selectedKeys, allKeys);
            JsStrings.Truthy(first) ==>
              var i := IndexOf(allKeys, first.value);
              0 <= i && r == Some(allKeys[if i > 0 then i - 1 else 0])
  {
    var first := FirstSelectedKey(selectedKeys, allKeys);
    var index :=
      if JsStrings.Truthy(first) then
        var i := IndexOf(allKeys, first.value);
        if i > 0 then i - 1 else i
      else |allKeys| - 1;
    if 0 <= index < |allKeys| then Some(allKeys[index]) else None
  }

  /**
    `_moveSelectionDown`: from the first selected key it moves one index down,
    staying at the last index; with no (truthy) selected key it picks the first
    visible key. `None` is the `undefined` of `allKeys[0]` when nothing is visible.
  */
  function MoveSelectionDown(selectedKeys: seq<Key>, allKeys: seq<Key>): (r: Option<Key>)
    ensures |allKeys| == 0 <==> r.None?
    ensures r.Some? ==> r.value in allKeys
    ensures var first := FirstSelectedKey(selectedKeys, allKeys);
            |allKeys| > 0 && !JsStrings.Truthy(first) ==> r == Some(allKeys[0])
    ensures var first := FirstSelectedKey(selectedKeys, allKeys);
            JsStrings.Truthy(first) ==>
              var i := IndexOf(allKeys, first.value);
              0 <= i && r == Some(allKeys[if i < |allKeys| - 1 then i + 1 else i])
  {
    var first := FirstSelectedKey(selectedKeys, allKeys);
    var index :=
      if JsStrings.Truthy(first) then
        var i := IndexOf(allKeys, first.value);
        if i != -1 && i < |allKeys| - 1 then i + 1 else i
      else 0;
    if 0 <= index < |allKeys| then Some(allKeys[index]) else None
  }

  /** Moving up then down from a selected visible key that is not the first comes back to it. */
  lemma UpThenDown(allKeys: seq<Key>, i: nat)
    requires 0 < i < |allKeys| && Unique(allKeys)
    requires forall j :: 0 <= j < |allKeys| ==> allKeys[j] != ""
    ensures var up := MoveSelectionUp([allKeys[i]], allKeys);
            up.Some? && MoveSelectionDown([up.value], allKeys) == Some(allKeys[i])
  {
    assert IndexOf(allKeys, allKeys[i]) == i by {
      IndexOfIsFirst(allKeys, i);
    }
    assert IndexOf(allKeys, allKeys[i - 1]) == i - 1 by {
      IndexOfIsFirst(allKeys, i - 1);
    }
    assert FirstSelectedKey([allKeys[i]], allKeys) == Some(allKeys[i]);
    assert FirstSelectedKey([allKeys[i - 1]], allKeys) == Some(allKeys[i - 1]);
  }
}
