/** Concrete scenarios of the trie operations on small, fixed inputs. */
module TrieDebug {

  import opened Wrappers
  import opened TrieNodes
  import opened TrieGet
  import opened TriePut
  import opened TrieRemove

  /** Scenario helper: put adds the edge `key[0]` to the root's edges. */
  lemma PutRootEdges(t: Trie, key: Key, v: Payload)
    requires key != []
    ensures PutTrie(t, key, v).root.value.children.Keys == ChildrenOf(t.root).Keys + {key[0]}
  {
  }

  /** Scenario helper: below edge `key[0]` of the root, put stores the rest of the key; every other edge is kept. */
  lemma PutBelowRoot(t: Trie, key: Key, v: Payload, c: char)
    requires key != []
    ensures Below(PutTrie(t, key, v).root, c) ==
            if c == key[0] then Some(PutNode(Below(t.root, c), key[1..], v)) else Below(t.root, c)
  {
  }

  /** A node with the seven edges of the scenario's root has seven children. */
  lemma SevenEdges(m: map<char, Node>)
    requires m.Keys == {'6', '8', '2', '1', '9', '3', '7'}
    ensures |m| == 7
  {
    assert |m| == |m.Keys|;
  }

  /** A node with the edges '4' and '3' has two children. */
  lemma TwoEdges(m: map<char, Node>)
    requires m.Keys == {'4', '3'}
    ensures |m| == 2
  {
    assert |m| == |m.Keys|;
  }

  /** The first five puts of the debugger scenario. */
  function FirstFive(t: Trie): Trie
  {
    PutTrie(PutTrie(PutTrie(PutTrie(PutTrie(t,
      "65", Uint32Value(25)), "61", Uint32Value(65)), "82", Uint32Value(84)), "2", Uint32Value(42)),
      "16", Uint32Value(67))
  }

  /** The last five puts of the debugger scenario. */
  function LastFive(t: Trie): Trie
  {
    PutTrie(PutTrie(PutTrie(PutTrie(PutTrie(t,
      "94", Uint32Value(53)), "20", Uint32Value(35)), "3", Uint32Value(57)), "93", Uint32Value(30)),
      "75", Uint32Value(29))
  }

  /** After the first five puts on an empty trie the root has the edges '6', '8', '2' and '1', and none is '9'. */
  lemma FirstFiveRoot(t0: Trie)
    requires t0.root.None?
    ensures FirstFive(t0).root.Some?
    ensures FirstFive(t0).root.value.children.Keys == {'6', '8', '2', '1'}
  {
    var t1 := PutTrie(t0, "65", Uint32Value(25));
    var t2 := PutTrie(t1, "61", Uint32Value(65));
    var t3 := PutTrie(t2, "82", Uint32Value(84));
    var t4 := PutTrie(t3, "2", Uint32Value(42));
    PutRootEdges(t0, "65", Uint32Value(25));
    PutRootEdges(t1, "61", Uint32Value(65));
    PutRootEdges(t2, "82", Uint32Value(84));
    PutRootEdges(t3, "2", Uint32Value(42));
    PutRootEdges(t4, "16", Uint32Value(67));
  }

  /** The last five puts add the edges '9', '3' and '7' to the root. */
  lemma LastFiveRoot(t5: Trie)
    requires t5.root.Some? && t5.root.value.children.Keys == {'6', '8', '2', '1'}
    ensures LastFive(t5).root.value.children.Keys == {'6', '8', '2', '1', '9', '3', '7'}
  {
    var t6 := PutTrie(t5, "94", Uint32Value(53));
    var t7 := PutTrie(t6, "20", Uint32Value(35));
    var t8 := PutTrie(t7, "3", Uint32Value(57));
    var t9 := PutTrie(t8, "93", Uint32Value(30));
    PutRootEdges(t5, "94", Uint32Value(53));
    PutRootEdges(t6, "20", Uint32Value(35));
    PutRootEdges(t7, "3", Uint32Value(57));
    PutRootEdges(t8, "93", Uint32Value(30));
    PutRootEdges(t9, "75", Uint32Value(29));
  }

  /** The last five puts, on a trie without edge '9', leave the node under '9' with the edges '4' and '3'. */
  lemma LastFiveNine(t5: Trie)
    requires Below(t5.root, '9').None?
    ensures Below(LastFive(t5).root, '9').Some?
    ensures Below(LastFive(t5).root, '9').value.children.Keys == {'4', '3'}
  {
    var t6 := PutTrie(t5, "94", Uint32Value(53));
    var t7 := PutTrie(t6, "20", Uint32Value(35));
    var t8 := PutTrie(t7, "3", Uint32Value(57));
    var t9 := PutTrie(t8, "93", Uint32Value(30));
    PutBelowRoot(t5, "94", Uint32Value(53), '9');
    PutBelowRoot(t6, "20", Uint32Value(35), '9');
    PutBelowRoot(t7, "3", Uint32Value(57), '9');
    PutBelowRoot(t8, "93", Uint32Value(30), '9');
    PutBelowRoot(t9, "75", Uint32Value(29), '9');
  }

  /** After the last five puts, "93" reads 30. */
  lemma LastFiveValue(t5: Trie)
    ensures Find(LastFive(t5), "93", Uint32Type) == Some(Uint32Value(30))
  {
    var t8 := PutTrie(PutTrie(PutTrie(t5, "94", Uint32Value(53)), "20", Uint32Value(35)), "3", Uint32Value(57));
    var t9 := PutTrie(t8, "93", Uint32Value(30));
    PutThenGet(t8, "93", Uint32Value(30), "93", Uint32Type);
    PutThenGet(t9, "75", Uint32Value(29), "93", Uint32Type);
  }

  /**
   * The ten puts of the debugger scenario on an empty trie: the root gets seven
   * children, the node under '9' two, and "93" reads 30.
   */
  lemma DebugScenario(t0: Trie)
    requires t0.root.None?
    ensures var t := LastFive(FirstFive(t0));
            t.root.Some? && |t.root.value.children| == 7 &&
            '9' in t.root.value.children && |t.root.value.children['9'].children| == 2 &&
            Find(t, "93", Uint32Type) == Some(Uint32Value(30))
  {
    var t5 := FirstFive(t0);
    var t := LastFive(t5);
    FirstFiveRoot(t0);
    assert Below(t5.root, '9').None?;
    LastFiveRoot(t5);
    SevenEdges(t.root.value.children);
    LastFiveNine(t5);
    TwoEdges(t.root.value.children['9'].children);
    LastFiveValue(t5);
  }

  /**
   * The debugger scenario: ten two-character keys put one after another into
   * an empty trie. The root then has 7 children, the node under '9' has 2, and
   * "93" reads 30.
   */
  method TrieDebugger() returns (rootChildren: nat, nineChildren: nat, value93: Option<Payload>)
    ensures rootChildren == 7 && nineChildren == 2
    ensures value93 == Some(Uint32Value(30))
  {
    var trie := Trie(None);
    ghost var empty := trie;
    trie := Put(trie, "65", Uint32Value(25));
    trie := Put(trie, "61", Uint32Value(65));
    trie := Put(trie, "82", Uint32Value(84));
    trie := Put(trie, "2", Uint32Value(42));
    trie := Put(trie, "16", Uint32Value(67));
    trie := Put(trie, "94", Uint32Value(53));
    trie := Put(trie, "20", Uint32Value(35));
    trie := Put(trie, "3", Uint32Value(57));
    trie := Put(trie, "93", Uint32Value(30));
    trie := Put(trie, "75", Uint32Value(29));
    assert trie == LastFive(FirstFive(empty));
    DebugScenario(empty);
    rootChildren := |trie.root.value.children|;
    nineChildren := |trie.root.value.children['9'].children|;
    value93 := Get(trie, "93", Uint32Type);
  }

  /**
   * Three puts and a removal: the root has the two children '6' and '2', "65"
   * reads 25, the plain node at "6" reads nothing; after removing "65", "61"
   * still reads 65 and the node under '6' keeps the single child '1'.
   */
  method PutPutPutRemove()
      returns (rootChildren: set<char>, value65: Option<Payload>, value6: Option<Payload>,
               value61: Option<Payload>, sixChildren: set<char>)
    ensures rootChildren == {'6', '2'}
    ensures value65 == Some(Uint32Value(25)) && value6 == None
    ensures value61 == Some(Uint32Value(65)) && sixChildren == {'1'}
  {
    var trie := Trie(None);
    trie := Put(trie, "65", Uint32Value(25));
    trie := Put(trie, "61", Uint32Value(65));
    trie := Put(trie, "2", Uint32Value(42));
    rootChildren := trie.root.value.children.Keys;
    value65 := Get(trie, "65", Uint32Type);
    value6 := Get(trie, "6", Uint32Type);
    trie := Remove(trie, "65");
    value61 := Get(trie, "61", Uint32Type);
    sixChildren := trie.root.value.children['6'].children.Keys;
  }

  /** A chain "abc" holding the only payload collapses completely when that key is removed. */
  method RemoveCollapsesChain() returns (t: Trie)
    ensures t.root.None?
  {
    t := Put(Trie(None), "abc", StringValue("v"));
    t := Remove(t, "abc");
  }
}
