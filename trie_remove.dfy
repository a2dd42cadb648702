/** `Trie::Remove`: path copying followed by pruning of nodes that no longer carry anything. */
module TrieRemove {

  import opened Wrappers
  import opened TrieNodes
  import opened TrieSpine

  /** A clone's children with edge `c` erased and, when there is one, the rebuilt child put back. */
  function Reattach(m: map<char, Node>, c: char, below: Option<Node>): map<char, Node>
  {
    var erased := m - {c};
    if below.Some? then erased[c := below.value] else erased
  }

  /**
   * The node that replaces `n` when `key` is removed below it, or `None` when
   * it is pruned. At the end of the key the node loses its value and survives
   * only if it has children. Above it, a valueless node whose only child was
   * just dropped is pruned as well; any other node is cloned with edge `key[0]`
   * erased and the rebuilt child, if any, reattached.
   */
  function RemoveNode(n: Node, key: Key): Option<Node>
    requires Descend(Some(n), key).Some?
    decreases |key|
  {
    if key == [] then
      if n.children == map[] then None else Some(Node(n.children, None))
    else
      DescendNone(key[1..]);
      var below := RemoveNode(n.children[key[0]], key[1..]);
      if below.None? && |n.children| == 1 && n.value.None? then None
      else Some(Node(Reattach(n.children, key[0], below), n.value))
  }

  /** The trie `Remove` returns: the input itself when the path to `key` breaks. */
  function RemoveTrie(t: Trie, key: Key): Trie
  {
    if Descend(t.root, key).None? then t else Trie(RemoveNode(t.root.value, key))
  }

  /**
   * The copy-on-write removal. The descent is the one `Put` makes; when the path
   * breaks the input trie is returned. Otherwise the spine holds exactly one node
   * per key character, and it is popped bottom-up: the node at the end of the
   * key becomes a plain node or disappears, and `flag` records whether a node
   * has been produced yet; while none has, a valueless ancestor with a single
   * child is pruned too.
   */
  method Remove(t: Trie, key: Key) returns (r: Trie)
    ensures r == RemoveTrie(t, key)
  {
    var spine, cur := WalkSpine(t.root, key);
    if cur.None? {
      return t;
    }
    DescendSplit(t.root, key);
    assert key[..|key|] == key && key[|key|..] == [];

    var child: Option<Node>;
    if cur.value.children == map[] {
      child := None;
    } else {
      child := Some(Node(cur.value.children, None));
    }
    var flag := false;
    ghost var path := spine;
    for i := |key| downto 0
      invariant spine == path[..i]
      invariant flag ==> child.Some?
      invariant child == RemoveNode(Descend(t.root, key[..i]).value, key[i..])
    {
      if child.Some? {
        flag := true;
      }
      var top := spine[|spine| - 1];
      spine := spine[..|spine| - 1];
      DescendStep(t.root, key, i);
      if !flag && |top.children| == 1 && top.value.None? {
        child := None;
        continue;
      }
      var children := top.children - {key[i]};
      if child.Some? {
        children := children[key[i] := child.value];
      }
      child := Some(Node(children, top.value));
    }
    assert key[..0] == [] && key[0..] == key;
    r := Trie(child);
  }

  /** A map with a single key `c` has no other key. */
  lemma OnlyKey(m: map<char, Node>, c: char)
    requires c in m && |m| == 1
    ensures m.Keys == {c}
  {
    var rest := m.Keys - {c};
    assert |m.Keys| == |rest| + 1;
  }

  /** Erasing a present key leaves one entry fewer. */
  lemma EraseSize(m: map<char, Node>, c: char)
    requires c in m
    ensures |m - {c}| == |m| - 1
  {
    assert (m - {c}).Keys == m.Keys - {c};
  }

  /** After a removal, `key` reads nothing and every other key reads what it read before. */
  lemma {:induction false} RemoveReads(n: Node, key: Key, k: Key)
    requires Descend(Some(n), key).Some?
    ensures ValueAt(RemoveNode(n, key), k) == if k == key then None else ValueAt(Some(n), k)
    decreases |key|
  {
    if k != [] {
      DescendNone(k[1..]);
    }
    if key == [] {
      if k != [] && n.children == map[] {
        assert Child(n, k[0]) == None;
      }
    } else {
      DescendNone(key[1..]);
      var c := key[0];
      var below := RemoveNode(n.children[c], key[1..]);
      if k != [] && k[0] == c {
        RemoveReads(n.children[c], key[1..], k[1..]);
        assert k == key <==> k[1..] == key[1..] by {
          assert k == [k[0]] + k[1..] && key == [key[0]] + key[1..];
        }
      }
      if below.None? && |n.children| == 1 && n.value.None? {
        OnlyKey(n.children, c);
      }
    }
  }

  /** The abstract view after a removal is the old view without `key`. */
  lemma RemoveContents(t: Trie, key: Key)
    ensures Contents(RemoveTrie(t, key)) == Contents(t) - {key}
  {
    var m := Contents(t) - {key};
    forall k ensures ValueAt(RemoveTrie(t, key).root, k) == (if k in m then Some(m[k]) else None) {
      ContentsExact(t, k);
      if Descend(t.root, key).Some? {
        RemoveReads(t.root.value, key, k);
      }
    }
    ContentsByLookups(t, RemoveTrie(t, key), m);
  }

  /**
   * Delete then get: the new trie yields nothing at `key`, whatever type is
   * asked for, and the old result at every other key.
   */
  lemma RemoveThenGet(t: Trie, key: Key, k: Key, ty: PayloadType)
    ensures Find(RemoveTrie(t, key), k, ty) == if k == key then None else Find(t, k, ty)
  {
    if Descend(t.root, key).Some? {
      RemoveReads(t.root.value, key, k);
    }
  }

  /** Every node a removal produces carries a value or a child: pruning leaves no dangling node. */
  lemma {:induction false} RemoveNodeKeepsNoDangling(n: Node, key: Key)
    requires NoDangling(n) && Descend(Some(n), key).Some?
    ensures WellFormed(RemoveNode(n, key))
    decreases |key|
  {
    if key != [] {
      DescendNone(key[1..]);
      var c := key[0];
      var child := n.children[c];
      RemoveNodeKeepsNoDangling(child, key[1..]);
      var below := RemoveNode(child, key[1..]);
      if !(below.None? && |n.children| == 1 && n.value.None?) {
        var m := Reattach(n.children, c, below);
        assert RemoveNode(n, key) == Some(Node(m, n.value));
        forall c' | c' in m ensures NoDangling(m[c']) {
          if c' != c {
            assert m[c'] == n.children[c'];
          }
        }
        if below.None? && n.value.None? {
          EraseSize(n.children, c);
          assert |m| > 0;
        }
      }
    }
  }

  /** Removing from a well-formed trie gives a well-formed trie: no dangling node appears. */
  lemma RemoveKeepsWellFormed(t: Trie, key: Key)
    requires WellFormed(t.root)
    ensures WellFormed(RemoveTrie(t, key).root)
  {
    if Descend(t.root, key).Some? {
      RemoveNodeKeepsNoDangling(t.root.value, key);
    }
  }

  /**
   * Removing the only key of a well-formed trie prunes every node: the result
   * is the empty trie, not a chain of empty plain nodes.
   */
  lemma RemoveLastKey(t: Trie, key: Key)
    requires WellFormed(t.root)
    requires forall k :: k != key ==> ValueAt(t.root, k).None?
    ensures RemoveTrie(t, key).root.None?
  {
    var r := RemoveTrie(t, key);
    RemoveKeepsWellFormed(t, key);
    RemoveContents(t, key);
    forall k ensures k !in Contents(r) {
      ContentsExact(r, k);
      ContentsExact(t, k);
    }
    EmptyIffNoKeys(r);
  }

  /** Removing a key that ends on a plain node of a well-formed trie rebuilds the same node. */
  lemma {:induction false} RemoveNodeAbsent(n: Node, key: Key)
    requires NoDangling(n) && Descend(Some(n), key).Some? && ValueAt(Some(n), key).None?
    ensures RemoveNode(n, key) == Some(n)
    decreases |key|
  {
    if key != [] {
      DescendNone(key[1..]);
      var c := key[0];
      var child := n.children[c];
      assert ValueAt(Some(child), key[1..]) == ValueAt(Some(n), key);
      RemoveNodeAbsent(child, key[1..]);
      assert Reattach(n.children, c, Some(child)) == n.children;
      assert RemoveNode(n, key) == Some(Node(Reattach(n.children, c, Some(child)), n.value));
    }
  }

  /**
   * Identity of absence: removing a key that holds no payload from a
   * well-formed trie yields the input trie, both when the path breaks and when
   * it ends on a plain node.
   */
  lemma RemoveAbsent(t: Trie, key: Key)
    requires WellFormed(t.root) && ValueAt(t.root, key).None?
    ensures RemoveTrie(t, key) == t
  {
    if Descend(t.root, key).Some? {
      RemoveNodeAbsent(t.root.value, key);
    }
  }

  /**
   * Sharing under removal: every position that is not a prefix of `key` holds
   * the very node of the old trie at that position. Since only edge `key[i]` is
   * erased and reattached, no node off the path is lost or changed.
   */
  lemma {:induction false} RemoveSharesOffPath(n: Node, key: Key, p: Key)
    requires Descend(Some(n), key).Some? && !(p <= key)
    ensures Descend(RemoveNode(n, key), p) == Descend(Some(n), p)
    decreases |key|
  {
    DescendNone(p[1..]);
    var r := RemoveNode(n, key);
    if key != [] && p[0] == key[0] {
      DescendNone(key[1..]);
      RemoveSharesOffPath(n.children[key[0]], key[1..], p[1..]);
    } else if r.Some? {
      assert Child(r.value, p[0]) == Child(n, p[0]);
    } else if key != [] {
      OnlyKey(n.children, key[0]);
    }
  }

  /**
   * The node of the new trie at the prefix `key[..i]` is the rebuilt node for
   * the old node at that prefix, and it is missing exactly when the removal
   * prunes that node.
   */
  lemma {:induction false} RemovePathNode(n: Node, key: Key, i: nat)
    requires Descend(Some(n), key).Some? && i <= |key|
    ensures Descend(Some(n), key[..i]).Some?
    ensures Descend(Descend(Some(n), key[..i]), key[i..]).Some?
    ensures Descend(RemoveNode(n, key), key[..i]) == RemoveNode(Descend(Some(n), key[..i]).value, key[i..])
    decreases i
  {
    DescendAppend(Some(n), key[..i], key[i..]);
    assert key[..i] + key[i..] == key;
    DescendNone(key[i..]);
    if i == 0 {
      assert key[..0] == [] && key[0..] == key;
    } else {
      DescendNone(key[1..]);
      var c := key[0];
      assert key[..i][0] == c && key[..i][1..] == key[1..][..i - 1];
      assert key[i..] == key[1..][i - 1..];
      RemovePathNode(n.children[c], key[1..], i - 1);
      DescendNone(key[1..][..i - 1]);
    }
  }

  /**
   * A removal rebuilds only the path to `key`: a surviving node at a prefix
   * `key[..i]` above the end of the key keeps the old node's value and every
   * edge other than `key[i]`, and at the end of the key it is the old node's
   * children without the value.
   */
  lemma RemoveRebuildsPath(n: Node, key: Key, i: nat)
    requires Descend(Some(n), key).Some? && i <= |key|
    ensures var m := Descend(RemoveNode(n, key), key[..i]);
            var old_ := Descend(Some(n), key[..i]);
            m.Some? ==>
              old_.Some? &&
              (i < |key| ==>
                 m.value.value == old_.value.value &&
                 forall c :: c != key[i] ==>
                   (c in m.value.children <==> c in old_.value.children) &&
                   (c in m.value.children ==> m.value.children[c] == old_.value.children[c])) &&
              (i == |key| ==> m.value == Node(old_.value.children, None))
  {
    RemovePathNode(n, key, i);
    if i < |key| {
      DescendNone(key[i + 1..]);
      assert key[i..][0] == key[i] && key[i..][1..] == key[i + 1..];
    } else {
      assert key[i..] == [];
    }
  }
}
