/** The descent shared by `Trie::Put` and `Trie::Remove`. */
module TrieSpine {

  import opened Wrappers
  import opened TrieNodes

  /**
   * Walks `key` from `root`, pushing every node it visits onto the spine, and
   * stops at the end of the key or at the first missing edge. `cur` is the node
   * at the end of the key, or `None` when the path breaks. Each spine entry is
   * the existing node at the corresponding prefix of the key, so a walk that
   * reaches the end pushes exactly `|key|` nodes, and
   * after a break no prefix longer than the spine exists.
   */
  method WalkSpine(root: Option<Node>, key: Key) returns (spine: seq<Node>, cur: Option<Node>)
    ensures |spine| <= |key|
    ensures forall j :: 0 <= j < |spine| ==> Descend(root, key[..j]) == Some(spine[j])
    ensures cur == Descend(root, key[..|spine|])
    ensures cur == Descend(root, key)
    ensures cur.Some? ==> |spine| == |key|
    ensures cur.None? ==> forall j :: |spine| <= j <= |key| ==> Descend(root, key[..j]) == None
  {
    cur := root;
    spine := [];
    for i := 0 to |key|
      invariant |spine| == i
      invariant cur == Descend(root, key[..i])
      invariant forall j :: 0 <= j < i ==> Descend(root, key[..j]) == Some(spine[j])
    {
      if cur.None? {
        break;
      }
      spine := spine + [cur.value];
      DescendSnoc(root, key[..i], key[i]);
      assert key[..i + 1] == key[..i] + [key[i]];
      if key[i] !in cur.value.children {
        cur := None;
        break;
      }
      cur := Some(cur.value.children[key[i]]);
    }
    DescendAppend(root, key[..|spine|], key[|spine|..]);
    assert key[..|spine|] + key[|spine|..] == key;
    DescendNone(key[|spine|..]);
    forall j | |spine| <= j <= |key| && cur.None? ensures Descend(root, key[..j]) == None {
      DescendAppend(root, key[..|spine|], key[|spine|..j]);
      assert key[..|spine|] + key[|spine|..j] == key[..j];
      DescendNone(key[|spine|..j]);
    }
  }
}
