/** `Trie::Get<T>`: the read-only walk from the root along the key. */
module TrieGet {

  import opened Wrappers
  import opened TrieNodes

  /**
   * The lookup loop: a cursor starts at the root and follows one edge per key
   * character. The result is the payload at the end of the path when every edge
   * exists, the final node is a value node and its payload has the requested type.
   */
  method Get(t: Trie, key: Key, ty: PayloadType) returns (r: Option<Payload>)
    ensures r == Find(t, key, ty)
  {
    if t.root.None? {
      return None;
    }
    var cur := t.root.value;
    for i := 0 to |key|
      invariant Descend(t.root, key[..i]) == Some(cur)
    {
      DescendSnoc(t.root, key[..i], key[i]);
      assert key[..i + 1] == key[..i] + [key[i]];
      if key[i] !in cur.children {
        DescendAppend(t.root, key[..i + 1], key[i + 1..]);
        assert key[..i + 1] + key[i + 1..] == key;
        DescendNone(key[i + 1..]);
        return None;
      }
      cur := cur.children[key[i]];
    }
    assert key[..|key|] == key;
    if cur.value.None? {
      return None;
    }
    if TypeOf(cur.value.value) != ty {
      return None;
    }
    return cur.value;
  }

  /** Following `key` from `o` stops at position `i`: the first `i` edges exist, edge `key[i]` does not. */
  ghost predicate EdgeMissing(o: Option<Node>, key: Key, i: int)
    requires 0 <= i < |key|
  {
    Descend(o, key[..i]).Some? && key[i] !in Descend(o, key[..i]).value.children
  }

  /** From an existing node, the walk along `key` fails exactly when some edge along it is missing. */
  lemma {:induction false} DescendFailsAt(o: Option<Node>, key: Key)
    requires o.Some?
    ensures Descend(o, key).None? <==> exists i :: 0 <= i < |key| && EdgeMissing(o, key, i)
    decreases |key|
  {
    if key == [] {
    } else {
      var p, c := key[..|key| - 1], key[|key| - 1];
      assert key == p + [c];
      DescendFailsAt(o, p);
      DescendSnoc(o, p, c);
      forall i | 0 <= i < |p| ensures EdgeMissing(o, key, i) == EdgeMissing(o, p, i) {
        assert key[..i] == p[..i] && key[i] == p[i];
      }
      assert key[..|p|] == p;
      if Descend(o, p).None? {
        var i :| 0 <= i < |p| && EdgeMissing(o, p, i);
        assert EdgeMissing(o, key, i);
      } else {
        assert EdgeMissing(o, key, |p|) <==> c !in Descend(o, p).value.children;
      }
    }
  }

  /**
   * `Get<T>` finds nothing in exactly four cases: the trie is empty, an edge
   * along the key is missing, the node at the key is a plain node, or its
   * payload has another type.
   */
  lemma GetAbsentCases(t: Trie, key: Key, ty: PayloadType)
    ensures Find(t, key, ty).None? <==>
            || t.root.None?
            || (exists i :: 0 <= i < |key| && EdgeMissing(t.root, key, i))
            || (Descend(t.root, key).Some? && Descend(t.root, key).value.value.None?)
            || (ValueAt(t.root, key).Some? && TypeOf(ValueAt(t.root, key).value) != ty)
  {
    if t.root.Some? {
      DescendFailsAt(t.root, key);
    } else {
      DescendNone(key);
    }
  }

  /** The empty key reads the root's own payload. */
  lemma GetEmptyKeyReadsRoot(t: Trie, ty: PayloadType)
    ensures Find(t, [], ty) ==
            if t.root.Some? && t.root.value.value.Some? && TypeOf(t.root.value.value.value) == ty
            then t.root.value.value else None
  {
  }
}
