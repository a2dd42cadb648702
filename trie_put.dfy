/** `Trie::Put<T>`: path copying from the root to the key, sharing everything else. */
module TriePut {

  import opened Wrappers
  import opened TrieNodes
  import opened TrieSpine

  /**
   * The node that replaces `o` when `v` is stored at `key` below it: a clone of
   * `o` (or a new plain node where `o` is missing) whose edge `key[0]` leads to
   * the rebuilt rest of the path; at the end of the key, a value node that keeps
   * the children of the node it replaces.
   */
  function PutNode(o: Option<Node>, key: Key, v: Payload): Node
    decreases |key|
  {
    if key == [] then Node(ChildrenOf(o), Some(v))
    else Node(ChildrenOf(o)[key[0] := PutNode(Below(o, key[0]), key[1..], v)], ValueOf(o))
  }

  /** The trie `Put` returns. */
  function PutTrie(t: Trie, key: Key, v: Payload): Trie
  {
    Trie(Some(PutNode(t.root, key, v)))
  }

  /**
   * The copy-on-write insertion. The descent pushes every existing node on the
   * path onto a stack (the spine) and stops at the first missing edge; then the
   * new value node is built (keeping the children of the node it replaces, if
   * the whole key existed), plain single-child nodes are synthesized for the
   * part of the key the trie did not have, and the spine is popped bottom-up,
   * each popped node cloned with only its edge `key[i]` redirected.
   */
  method Put(t: Trie, key: Key, value: Payload) returns (r: Trie)
    ensures r == PutTrie(t, key, value)
    ensures r.root.Some?
  {
    var spine, cur := WalkSpine(t.root, key);
    assert key[..|key|] == key;

    // The new value node; it inherits the children of the node it replaces.
    var child: Node;
    if cur.None? {
      child := Node(map[], Some(value));
    } else {
      child := Node(cur.value.children, Some(value));
    }

    // The part of the key below the spine: fresh single-child plain nodes.
    for i := |key| downto |spine|
      invariant child == PutNode(Descend(t.root, key[..i]), key[i..], value)
    {
      assert key[i..][0] == key[i] && key[i..][1..] == key[i + 1..];
      child := Node(map[key[i] := child], None);
    }

    // The spine, bottom-up: each node is cloned with edge key[i] redirected.
    ghost var path := spine;
    for i := |spine| downto 0
      invariant spine == path[..i]
      invariant child == PutNode(Descend(t.root, key[..i]), key[i..], value)
    {
      var top := spine[|spine| - 1];
      spine := spine[..|spine| - 1];
      DescendStep(t.root, key, i);
      child := Node(top.children[key[i] := child], top.value);
    }
    assert key[..0] == [] && key[0..] == key;
    r := Trie(Some(child));
  }

  /** After a put, `key` reads `v` and every other key reads what it read before. */
  lemma {:induction false} PutReads(o: Option<Node>, key: Key, v: Payload, k: Key)
    ensures ValueAt(Some(PutNode(o, key, v)), k) == if k == key then Some(v) else ValueAt(o, k)
    decreases |key|
  {
    var n := PutNode(o, key, v);
    if k == [] {
    } else if key == [] {
      assert Child(n, k[0]) == Below(o, k[0]);
      DescendNone(k[1..]);
    } else if k[0] != key[0] {
      assert Child(n, k[0]) == Below(o, k[0]);
      DescendNone(k[1..]);
    } else {
      PutReads(Below(o, key[0]), key[1..], v, k[1..]);
      assert k == key <==> k[1..] == key[1..] by {
        assert k == [k[0]] + k[1..] && key == [key[0]] + key[1..];
      }
      DescendNone(k[1..]);
    }
  }

  /** The abstract view after a put is the old view with `key` mapped to `v`. */
  lemma PutContents(t: Trie, key: Key, v: Payload)
    ensures Contents(PutTrie(t, key, v)) == Contents(t)[key := v]
  {
    var m := Contents(t)[key := v];
    forall k ensures ValueAt(PutTrie(t, key, v).root, k) == (if k in m then Some(m[k]) else None) {
      PutReads(t.root, key, v, k);
      ContentsExact(t, k);
    }
    ContentsByLookups(t, PutTrie(t, key, v), m);
  }

  /**
   * Round trip through `Get<T>`: the new trie yields `v` at `key` when read with
   * the type of `v`, nothing when read with another type, and the old result at
   * every other key.
   */
  lemma PutThenGet(t: Trie, key: Key, v: Payload, k: Key, ty: PayloadType)
    ensures Find(PutTrie(t, key, v), k, ty) ==
            if k == key then (if ty == TypeOf(v) then Some(v) else None) else Find(t, k, ty)
  {
    PutReads(t.root, key, v, k);
  }

  /** Putting into a well-formed trie gives a well-formed trie: no dangling node appears. */
  lemma {:induction false} PutKeepsNoDangling(o: Option<Node>, key: Key, v: Payload)
    requires WellFormed(o)
    ensures NoDangling(PutNode(o, key, v))
    decreases |key|
  {
    if key != [] {
      PutKeepsNoDangling(Below(o, key[0]), key[1..], v);
    }
  }

  /**
   * Sharing: every node whose position is not on the path to `key` is the
   * very node of the old trie at that position, shared rather than copied. This
   * includes the nodes below `key`, which the new value node inherits.
   */
  lemma {:induction false} PutSharesOffPath(o: Option<Node>, key: Key, v: Payload, p: Key)
    requires !(p <= key)
    ensures Descend(Some(PutNode(o, key, v)), p) == Descend(o, p)
    decreases |key|
  {
    var n := PutNode(o, key, v);
    assert p != [];
    if key == [] || p[0] != key[0] {
      assert Child(n, p[0]) == Below(o, p[0]);
      DescendNone(p[1..]);
    } else {
      PutSharesOffPath(Below(o, key[0]), key[1..], v, p[1..]);
      DescendNone(p[1..]);
    }
  }

  /** The node of the new trie at the prefix `key[..i]` is the rebuilt node for that prefix. */
  lemma {:induction false} PutPathNode(o: Option<Node>, key: Key, v: Payload, i: nat)
    requires i <= |key|
    ensures Descend(Some(PutNode(o, key, v)), key[..i]) == Some(PutNode(Descend(o, key[..i]), key[i..], v))
    decreases i
  {
    if i == 0 {
      assert key[..0] == [] && key[0..] == key;
      DescendNone([]);
    } else {
      assert key[..i][0] == key[0] && key[..i][1..] == key[1..][..i - 1];
      assert key[i..] == key[1..][i - 1..];
      PutPathNode(Below(o, key[0]), key[1..], v, i - 1);
      DescendNone(key[1..][..i - 1]);
    }
  }

  /**
   * Put builds exactly one new node per prefix of `key`, |key| + 1 in all, and
   * each is a copy of the old node at that prefix with one change: above the
   * end of the key, only edge `key[i]` is redirected (so a node synthesized
   * where the old trie had none has that single child); at the end of the key,
   * the value node keeps the old node's children and holds `v`.
   */
  lemma PutRebuildsPath(o: Option<Node>, key: Key, v: Payload, i: nat)
    requires i <= |key|
    ensures var n := Descend(Some(PutNode(o, key, v)), key[..i]);
            var old_ := Descend(o, key[..i]);
            n.Some? &&
            (i < |key| ==>
               var below := Descend(Some(PutNode(o, key, v)), key[..i + 1]);
               below.Some? &&
               n.value == Node(ChildrenOf(old_)[key[i] := below.value], ValueOf(old_))) &&
            (i == |key| ==> n.value == Node(ChildrenOf(old_), Some(v)))
  {
    PutPathNode(o, key, v, i);
    if i < |key| {
      PutPathNode(o, key, v, i + 1);
      DescendSnoc(o, key[..i], key[i]);
      assert key[..i + 1] == key[..i] + [key[i]];
      assert key[i..][0] == key[i] && key[i..][1..] == key[i + 1..];
    } else {
      assert key[i..] == [];
    }
  }

  /** Putting the same payload at the same key twice builds the same trie as putting it once. */
  lemma {:induction false} PutIdempotent(o: Option<Node>, key: Key, v: Payload)
    ensures PutNode(Some(PutNode(o, key, v)), key, v) == PutNode(o, key, v)
    decreases |key|
  {
    if key != [] {
      PutIdempotent(Below(o, key[0]), key[1..], v);
    }
  }
}
