/**
 * The node model of the copy-on-write trie: nodes are immutable values, so a
 * subtree that two versions share is simply the same value in both.
 */
module TrieNodes {

  import opened Wrappers

  newtype uint32 = x: int | 0 <= x < 0x1_0000_0000
  newtype uint64 = x: int | 0 <= x < 0x1_0000_0000_0000_0000

  /** A key is a sequence of edge labels; the empty key addresses the root. */
  type Key = seq<char>

  /** The payload types the trie is instantiated with; a read names one of them. */
  datatype PayloadType = Uint32Type | Uint64Type | StringType | IntegerType | MoveBlockedType

  /** The type-erased payload box: it holds exactly one value of one of the payload types. */
  datatype Payload =
    | Uint32Value(u32: uint32)
    | Uint64Value(u64: uint64)
    | StringValue(str: string)
    | IntegerValue(ptr: Option<uint32>)  // a (possibly null) unique pointer to a 32-bit integer
    | MoveBlockedValue                   // a payload that can be neither copied nor moved

  /** The dynamic type of a payload; a read of another type finds nothing. */
  function TypeOf(p: Payload): PayloadType
  {
    match p
    case Uint32Value(_) => Uint32Type
    case Uint64Value(_) => Uint64Type
    case StringValue(_) => StringType
    case IntegerValue(_) => IntegerType
    case MoveBlockedValue => MoveBlockedType
  }

  /**
   * A trie node. A node with `value == Some(p)` is a value node holding `p`;
   * one with `value == None` is a plain node.
   */
  datatype Node = Node(children: map<char, Node>, value: Option<Payload>)

  /** A trie handle: the root node, or `None` for the empty trie. */
  datatype Trie = Trie(root: Option<Node>)

  /** The children of a possibly missing node (a missing node has none). */
  function ChildrenOf(o: Option<Node>): map<char, Node>
  {
    if o.Some? then o.value.children else map[]
  }

  /** The payload of a possibly missing node (a missing node has none). */
  function ValueOf(o: Option<Node>): Option<Payload>
  {
    if o.Some? then o.value.value else None
  }

  /** The child of `n` along edge `c`, if that edge exists. */
  function Child(n: Node, c: char): (r: Option<Node>)
    ensures r.Some? <==> c in n.children
  {
    if c in n.children then Some(n.children[c]) else None
  }

  /** The child along edge `c` of a possibly missing node. */
  function Below(o: Option<Node>, c: char): (r: Option<Node>)
    ensures r.Some? <==> o.Some? && c in o.value.children
  {
    if o.Some? then Child(o.value, c) else None
  }

  /** The node reached from `o` by following the edges of `key`, if every edge exists. */
  function Descend(o: Option<Node>, key: Key): Option<Node>
    decreases |key|
  {
    match o
    case None => None
    case Some(n) => if key == [] then o else Descend(Child(n, key[0]), key[1..])
  }

  /** The payload stored at `key` below `o`, whatever its type. */
  function ValueAt(o: Option<Node>, key: Key): Option<Payload>
  {
    ValueOf(Descend(o, key))
  }

  /**
   * The lookup `Get<T>` performs: the payload at `key`, provided that it has the
   * requested type.
   */
  function Find(t: Trie, key: Key, ty: PayloadType): Option<Payload>
  {
    var p := ValueAt(t.root, key);
    if p.Some? && TypeOf(p.value) == ty then p else None
  }

  /** Following `a + b` is following `a`, then `b` from where `a` ends. */
  lemma {:induction false} DescendAppend(o: Option<Node>, a: Key, b: Key)
    ensures Descend(o, a + b) == Descend(Descend(o, a), b)
    decreases |a|
  {
    match o
    case None =>
      DescendNone(b);
    case Some(n) =>
      if a == [] {
        assert a + b == b;
      } else {
        assert (a + b)[0] == a[0] && (a + b)[1..] == a[1..] + b;
        DescendAppend(Child(n, a[0]), a[1..], b);
      }
  }

  /** Following one more edge after `key` is the same as following `key + [c]`. */
  lemma DescendSnoc(o: Option<Node>, key: Key, c: char)
    ensures Descend(o, key + [c]) ==
            if Descend(o, key).Some? then Child(Descend(o, key).value, c) else None
  {
    DescendAppend(o, key, [c]);
    var d := Descend(o, key);
    if d.Some? {
      assert Descend(d, [c]) == Descend(Child(d.value, c), []);
    }
  }

  /** One level down the key: the node at `key[..i + 1]` is the child along `key[i]` of the node at `key[..i]`. */
  lemma DescendStep(o: Option<Node>, key: Key, i: nat)
    requires i < |key|
    ensures Descend(o, key[..i + 1]) ==
            if Descend(o, key[..i]).Some? then Child(Descend(o, key[..i]).value, key[i]) else None
    ensures key[i..][0] == key[i] && key[i..][1..] == key[i + 1..]
  {
    DescendSnoc(o, key[..i], key[i]);
    assert key[..i + 1] == key[..i] + [key[i]];
  }

  /** Splitting the key anywhere: following `key[..i]`, then `key[i..]`, is following `key`. */
  lemma DescendSplit(o: Option<Node>, key: Key)
    ensures forall i :: 0 <= i <= |key| ==> Descend(Descend(o, key[..i]), key[i..]) == Descend(o, key)
  {
    forall i | 0 <= i <= |key| ensures Descend(Descend(o, key[..i]), key[i..]) == Descend(o, key) {
      DescendAppend(o, key[..i], key[i..]);
      assert key[..i] + key[i..] == key;
    }
  }

  /** Nothing lies below a missing node. */
  lemma DescendNone(key: Key)
    ensures Descend(None, key) == None
  {
  }

  /**
   * No dangling node: no node of the trie is both valueless and childless, so that
   * every node carries some information.
   */
  ghost predicate NoDangling(n: Node)
  {
    (n.value.Some? || |n.children| > 0) &&
    forall c :: c in n.children ==> NoDangling(n.children[c])
  }

  /** A trie is well formed when it is empty or its root has no dangling node. */
  ghost predicate WellFormed(o: Option<Node>)
  {
    o.None? || NoDangling(o.value)
  }

  /** The keys below `n` that hold a payload. */
  ghost function KeysOf(n: Node): set<Key>
  {
    (if n.value.Some? then {[]} else {}) +
    (set c, k | c in n.children && k in KeysOf(n.children[c]) :: [c] + k)
  }

  /** The abstract view of a trie: every key that holds a payload, with that payload. */
  ghost function Contents(t: Trie): map<Key, Payload>
  {
    if t.root.None? then map[]
    else map k | k in KeysOf(t.root.value) && ValueAt(t.root, k).Some? :: ValueAt(t.root, k).value
  }

  /** `KeysOf` is exactly the set of keys whose lookup finds a payload. */
  lemma {:induction false} KeysOfExact(n: Node, k: Key)
    ensures k in KeysOf(n) <==> ValueAt(Some(n), k).Some?
    decreases |k|
  {
    if k == [] {
    } else {
      var c, rest := k[0], k[1..];
      assert k == [c] + rest;
      if c in n.children {
        KeysOfExact(n.children[c], rest);
        assert ValueAt(Some(n), k) == ValueAt(Some(n.children[c]), rest);
        if rest in KeysOf(n.children[c]) {
          assert [c] + rest in (set c, k | c in n.children && k in KeysOf(n.children[c]) :: [c] + k);
        }
        if k in KeysOf(n) {
          var c', k' :| c' in n.children && k' in KeysOf(n.children[c']) && k == [c'] + k';
          assert c' == c && k' == rest;
        }
      } else {
        assert ValueAt(Some(n), k) == ValueAt(None, rest) == None;
        forall c', k' | c' in n.children && k' in KeysOf(n.children[c']) ensures [c'] + k' != k {
          assert ([c'] + k')[0] == c';
        }
      }
    }
  }

  /** The abstract view agrees with lookups, key by key. */
  lemma ContentsExact(t: Trie, k: Key)
    ensures k in Contents(t) <==> ValueAt(t.root, k).Some?
    ensures k in Contents(t) ==> Contents(t)[k] == ValueAt(t.root, k).value
  {
    if t.root.Some? {
      KeysOfExact(t.root.value, k);
    }
  }

  /** Two tries whose lookups agree everywhere have the same abstract view. */
  lemma ContentsByLookups(t: Trie, t': Trie, m: map<Key, Payload>)
    requires forall k :: ValueAt(t'.root, k) == (if k in m then Some(m[k]) else None)
    ensures Contents(t') == m
  {
    forall k ensures (k in Contents(t') <==> k in m) && (k in m ==> Contents(t')[k] == m[k]) {
      ContentsExact(t', k);
    }
  }

  /** A well-formed node always holds at least one payload somewhere below it. */
  lemma {:induction false} NoDanglingHasKey(n: Node) returns (k: Key)
    requires NoDangling(n)
    ensures ValueAt(Some(n), k).Some?
    decreases n
  {
    if n.value.Some? {
      k := [];
    } else {
      var c :| c in n.children;
      var k' := NoDanglingHasKey(n.children[c]);
      k := [c] + k';
      assert k[0] == c && k[1..] == k';
    }
  }

  /** A well-formed trie is empty exactly when its abstract view is empty. */
  lemma EmptyIffNoKeys(t: Trie)
    requires WellFormed(t.root)
    ensures t.root.None? <==> Contents(t) == map[]
  {
    if t.root.Some? {
      var k := NoDanglingHasKey(t.root.value);
      ContentsExact(t, k);
    }
  }
}
