/**
 * Trie nodes, the two walks the index performs from a node along a
 * lower-cased key, and the pre-order collection of a subtree's contacts.
 *
 * A node owns its children exclusively, so a tree of nodes is a value. An
 * update the index makes in place at the end of a walk is modelled by
 * `Replace`: the node at the walked path is swapped for its new value and
 * every node on the way keeps its flag and its contacts.
 */
module TrieNodes {
  import opened CaseFolding
  import opened Contacts

  datatype Option<T> = None | Some(value: T)

  /** A trie node: its children by edge character, the terminal flag and the contacts stored here. */
  datatype Node = Node(children: map<char, Node>, isEndOfWord: bool, contacts: seq<Contact>)

  /** `new TrieNode()`: no children, not terminal, no contacts. */
  const Fresh: Node := Node(map[], false, [])

  /** `putIfAbsent(c, new TrieNode())` followed by `get(c)`: the child on edge c, or a fresh node. */
  function Child(n: Node, c: char): Node
  {
    if c in n.children then n.children[c] else Fresh
  }

  /** The walk of search and delete: follow existing edges only, and fail at the first missing one. */
  function Lookup(n: Node, key: string): Option<Node>
    decreases |key|
  {
    if key == [] then Some(n)
    else if key[0] in n.children then Lookup(n.children[key[0]], key[1..])
    else None
  }

  /** The walk of insert: follow an edge, or create it when it is missing. */
  function Reach(n: Node, key: string): Node
    decreases |key|
  {
    if key == [] then n else Reach(Child(n, key[0]), key[1..])
  }

  /** Put m where the walk of insert along key ends, creating missing nodes on the way. */
  function Replace(n: Node, key: string, m: Node): Node
    decreases |key|
  {
    if key == [] then m
    else n.(children := n.children[key[0] := Replace(Child(n, key[0]), key[1..], m)])
  }

  /** The contacts a node contributes itself: its list when it is terminal. */
  function Own(n: Node): seq<Contact>
  {
    if n.isEndOfWord then n.contacts else []
  }

  /** A smallest key of a non-empty key set: the order in which children are visited. */
  function MinKey(ks: set<char>): (k: char)
    requires ks != {}
    ensures k in ks && forall d :: d in ks ==> k <= d
  {
    MinExists(ks);
    var k :| k in ks && forall d :: d in ks ==> k <= d; k
  }

  lemma MinExists(ks: set<char>)
    requires ks != {}
    ensures exists k :: k in ks && forall d :: d in ks ==> k <= d
  {
    var x :| x in ks;
    if ks == {x} {
      assert forall d :: d in ks ==> x <= d;
    } else {
      var rest := ks - {x};
      MinExists(rest);
      var y :| y in rest && forall d :: d in rest ==> y <= d;
      var m := if x < y then x else y;
      forall d | d in ks ensures m <= d {
        if d != x { assert d in rest; }
      }
      assert m in ks;
    }
  }

  /**
   * `collectAllContacts`: a node's own contacts first, then the collections of
   * its children's subtrees, children taken in ascending order of edge character.
   */
  function Collect(n: Node): seq<Contact>
    decreases n, 1
  {
    Own(n) + CollectChildren(n, n.children.Keys)
  }

  /** The collections of the subtrees below the edges in ks, in ascending edge order. */
  function CollectChildren(n: Node, ks: set<char>): seq<Contact>
    requires ks <= n.children.Keys
    decreases n, 0, ks
  {
    if ks == {} then []
    else
      var k := MinKey(ks);
      Collect(n.children[k]) + CollectChildren(n, ks - {k})
  }

  /** Every contact of a subtree, counted with repetition, ignoring the order of collection. */
  function Contents(n: Node): multiset<Contact>
  {
    multiset(Collect(n))
  }

  /**
   * The index's invariant for the node at lower-cased path `path`: it is
   * terminal exactly when it holds contacts, every contact it holds has a
   * name whose lower-case form is the path, and the same holds below.
   */
  ghost predicate WellFormed(n: Node, path: string)
    decreases n
  {
    && (n.isEndOfWord <==> n.contacts != [])
    && (forall c :: c in n.contacts ==> Lower(c.name) == path)
    && (forall k :: k in n.children ==> WellFormed(n.children[k], path + [k]))
  }

  // ---------------------------------------------------------------- walks

  /** Walking p and then q is walking p + q; a walk that fails on p fails on p + q. */
  lemma {:induction false} LookupAppend(n: Node, p: string, q: string)
    ensures Lookup(n, p + q) == match Lookup(n, p) case None => None case Some(m) => Lookup(m, q)
  {
    if p == [] {
      assert p + q == q;
    } else {
      assert (p + q)[0] == p[0] && (p + q)[1..] == p[1..] + q;
      if p[0] in n.children {
        LookupAppend(n.children[p[0]], p[1..], q);
      }
    }
  }

  /** One more step of the search/delete walk. */
  lemma LookupStep(n: Node, key: string, i: nat, m: Node)
    requires i < |key| && Lookup(n, key[..i]) == Some(m)
    ensures Lookup(n, key[..i + 1]) == if key[i] in m.children then Some(m.children[key[i]]) else None
  {
    assert key[..i + 1] == key[..i] + [key[i]];
    LookupAppend(n, key[..i], [key[i]]);
  }

  /** If the walk finds no edge for the next character, the whole key is absent. */
  lemma LookupMissing(n: Node, key: string, i: nat, m: Node)
    requires i < |key| && Lookup(n, key[..i]) == Some(m) && key[i] !in m.children
    ensures Lookup(n, key) == None
  {
    LookupStep(n, key, i, m);
    assert key == key[..i + 1] + key[i + 1..];
    LookupAppend(n, key[..i + 1], key[i + 1..]);
  }

  /** One more step of the insert walk. */
  lemma {:induction false} ReachSnoc(n: Node, p: string, c: char)
    ensures Reach(n, p + [c]) == Child(Reach(n, p), c)
    decreases |p|
  {
    if p == [] {
      assert p + [c] == [c];
    } else {
      assert (p + [c])[0] == p[0] && (p + [c])[1..] == p[1..] + [c];
      ReachSnoc(Child(n, p[0]), p[1..], c);
    }
  }

  /** Where the search walk succeeds, the insert walk reaches the same node. */
  lemma {:induction false} LookupIsReach(n: Node, key: string)
    requires Lookup(n, key).Some?
    ensures Reach(n, key) == Lookup(n, key).value
  {
    if key != [] {
      LookupIsReach(n.children[key[0]], key[1..]);
    }
  }

  /** After a replacement at p, walking p and then q walks q from the new node. */
  lemma {:induction false} ReplaceThenLookup(n: Node, p: string, m: Node, q: string)
    ensures Lookup(Replace(n, p, m), p + q) == Lookup(m, q)
    decreases |p|
  {
    if p == [] {
      assert p + q == q;
    } else {
      assert (p + q)[0] == p[0] && (p + q)[1..] == p[1..] + q;
      ReplaceThenLookup(Child(n, p[0]), p[1..], m, q);
    }
  }

  /** A replacement at p leaves every path that branches away from p as it was. */
  lemma {:induction false} ReplaceElsewhere(n: Node, p: string, m: Node, q: string)
    requires !(p <= q) && !(q <= p)
    ensures Lookup(Replace(n, p, m), q) == Lookup(n, q)
    decreases |p|
  {
    if p[0] != q[0] {
      assert q[0] !in n.children ==> Lookup(n, q) == None;
    } else {
      assert q[1..] != [] && p[1..] != [];
      assert !(p[1..] <= q[1..]) && !(q[1..] <= p[1..]);
      ReplaceElsewhere(Child(n, p[0]), p[1..], m, q[1..]);
      if p[0] !in n.children {
        FreshLookup(q[1..]);
      }
    }
  }

  /** A fresh node has no path but the empty one. */
  lemma FreshLookup(q: string)
    requires q != []
    ensures Lookup(Fresh, q) == None
  {
  }

  /**
   * A replacement at p prunes no node above p: every proper prefix q of p
   * still leads to a node, with the flag and the contacts of the node the
   * insert walk reaches at q, and with one more edge at most.
   */
  lemma {:induction false} ReplaceKeepsAncestors(n: Node, p: string, m: Node, q: string)
    requires q < p
    ensures Lookup(Replace(n, p, m), q).Some?
    ensures var a := Lookup(Replace(n, p, m), q).value;
      && a.isEndOfWord == Reach(n, q).isEndOfWord
      && a.contacts == Reach(n, q).contacts
      && a.children.Keys == Reach(n, q).children.Keys + {p[|q|]}
    decreases |p|
  {
    if q != [] {
      assert q[1..] < p[1..];
      ReplaceKeepsAncestors(Child(n, p[0]), p[1..], m, q[1..]);
    }
  }

  // ----------------------------------------------------------- collection

  /** Children outside the set cannot change a collection; nor can anything but the children in it. */
  lemma {:induction false} CollectChildrenFrame(n1: Node, n2: Node, ks: set<char>)
    requires ks <= n1.children.Keys && ks <= n2.children.Keys
    requires forall k :: k in ks ==> n1.children[k] == n2.children[k]
    ensures CollectChildren(n1, ks) == CollectChildren(n2, ks)
    decreases ks
  {
    if ks != {} {
      CollectChildrenFrame(n1, n2, ks - {MinKey(ks)});
    }
  }

  /** Any one child's collection can be taken out of the children's collection, as a multiset. */
  lemma {:induction false} CollectChildrenSplit(n: Node, ks: set<char>, k: char)
    requires ks <= n.children.Keys && k in ks
    ensures multiset(CollectChildren(n, ks))
         == Contents(n.children[k]) + multiset(CollectChildren(n, ks - {k}))
    decreases ks
  {
    var first := MinKey(ks);
    if first != k {
      CollectChildrenSplit(n, ks - {first}, k);
      assert ks - {first} - {k} == ks - {k} - {first};
      var next := MinKey(ks - {k});
      assert first in ks - {k};
      assert next <= first && first <= next;
    }
  }

  /** A node's contents: its own contacts, the subtree on edge c, and the other subtrees. */
  lemma ContentsAroundChild(n: Node, c: char)
    ensures Contents(n) == multiset(Own(n)) + Contents(Child(n, c))
                         + multiset(CollectChildren(n, n.children.Keys - {c}))
  {
    if c in n.children {
      CollectChildrenSplit(n, n.children.Keys, c);
    } else {
      assert n.children.Keys - {c} == n.children.Keys;
      assert Collect(Fresh) == [];
    }
  }

  /** Cutting the edge c off a node loses exactly the contacts of the subtree below it. */
  lemma ContentsWithoutChild(n: Node, c: char)
    requires c in n.children
    ensures Contents(n.(children := n.children - {c})) + Contents(n.children[c]) == Contents(n)
  {
    var cut := n.(children := n.children - {c});
    ContentsAroundChild(n, c);
    assert cut.children.Keys == n.children.Keys - {c};
    CollectChildrenFrame(cut, n, cut.children.Keys);
  }

  /** Replacing the subtree on edge c trades its contents for the new subtree's. */
  lemma ContentsReplaceChild(n: Node, c: char, x: Node)
    ensures Contents(n.(children := n.children[c := x])) + Contents(Child(n, c)) == Contents(n) + Contents(x)
  {
    var r := n.(children := n.children[c := x]);
    ContentsAroundChild(n, c);
    ContentsAroundChild(r, c);
    assert Child(r, c) == x && Own(r) == Own(n);
    assert r.children.Keys - {c} == n.children.Keys - {c};
    CollectChildrenFrame(r, n, n.children.Keys - {c});
  }

  /** A replacement at p trades the contents of the subtree at p for the contents of m. */
  lemma {:induction false} ContentsReplace(n: Node, p: string, m: Node)
    ensures Contents(Replace(n, p, m)) + Contents(Reach(n, p)) == Contents(n) + Contents(m)
    decreases |p|
  {
    if p != [] {
      var c := p[0];
      var child := Child(n, c);
      var child' := Replace(child, p[1..], m);
      assert Replace(n, p, m) == n.(children := n.children[c := child']);
      assert Reach(n, p) == Reach(child, p[1..]);
      ContentsReplace(child, p[1..], m);
      ContentsReplaceChild(n, c, child');
      MultisetTrade(Contents(Replace(n, p, m)), Contents(child), Contents(n), Contents(child'),
                    Contents(Reach(n, p)), Contents(m));
    }
  }

  /** From r + a == n + b and b + s == a + m follows r + s == n + m. */
  lemma MultisetTrade<T>(r: multiset<T>, a: multiset<T>, n: multiset<T>, b: multiset<T>,
                         s: multiset<T>, m: multiset<T>)
    requires r + a == n + b && b + s == a + m
    ensures r + s == n + m
  {
    forall x ensures (r + s)[x] == (n + m)[x] {
      assert (r + a)[x] == (n + b)[x];
      assert (b + s)[x] == (a + m)[x];
    }
  }

  /** The contacts below any path are among the contacts of the whole tree. */
  lemma SubtreeContents(n: Node, p: string)
    ensures Contents(Reach(n, p)) <= Contents(n)
  {
    ContentsReplace(n, p, Fresh);
    assert Collect(Fresh) == [];
    var rest := Contents(Replace(n, p, Fresh));
    assert rest + Contents(Reach(n, p)) == Contents(n);
  }

  // ----------------------------------------------------------- invariant

  /** The invariant holds at each child, at the path extended by its edge. */
  lemma WellFormedChild(n: Node, path: string, k: char)
    requires WellFormed(n, path) && k in n.children
    ensures WellFormed(n.children[k], path + [k])
  {
  }

  /** The invariant of the node a successful walk reaches, at the path walked. */
  lemma {:induction false} WellFormedAlongLookup(n: Node, path: string, key: string)
    requires WellFormed(n, path) && Lookup(n, key).Some?
    ensures WellFormed(Lookup(n, key).value, path + key)
  {
    if key == [] {
      assert path + key == path;
    } else {
      assert path + key == (path + [key[0]]) + key[1..];
      WellFormedAlongLookup(n.children[key[0]], path + [key[0]], key[1..]);
    }
  }

  /** The invariant of the node the insert walk reaches, at the path walked. */
  lemma {:induction false} WellFormedAlongReach(n: Node, path: string, key: string)
    requires WellFormed(n, path)
    ensures WellFormed(Reach(n, key), path + key)
    decreases |key|
  {
    if key == [] {
      assert path + key == path;
    } else {
      assert path + key == (path + [key[0]]) + key[1..];
      WellFormedAlongReach(Child(n, key[0]), path + [key[0]], key[1..]);
    }
  }

  /** Writing a well-formed node back at its own path keeps the tree well-formed. */
  lemma {:induction false} WellFormedReplace(n: Node, path: string, key: string, m: Node)
    requires WellFormed(n, path) && WellFormed(m, path + key)
    ensures WellFormed(Replace(n, key, m), path)
    decreases |key|
  {
    if key == [] {
      assert path + key == path;
    } else {
      var c := key[0];
      assert path + key == (path + [c]) + key[1..];
      WellFormedReplace(Child(n, c), path + [c], key[1..], m);
    }
  }

  /** Every contact collected below a well-formed node has that node's path as a prefix of its lower-cased name. */
  lemma {:induction false} CollectUnderPath(n: Node, path: string)
    requires WellFormed(n, path)
    ensures forall c :: c in Collect(n) ==> path <= Lower(c.name)
    decreases n, 1
  {
    CollectChildrenUnderPath(n, path, n.children.Keys);
    forall c | c in Collect(n)
      ensures path <= Lower(c.name)
    {
      if c in Own(n) {
        assert Lower(c.name) == path;
      }
    }
  }

  /**
   * The contacts collected from the children named in `ks` lie strictly below the
   * node, and the next character of each name is one of those children.
   */
  lemma {:induction false} CollectChildrenUnderPath(n: Node, path: string, ks: set<char>)
    requires WellFormed(n, path) && ks <= n.children.Keys
    ensures forall c :: c in CollectChildren(n, ks) ==>
      path < Lower(c.name) && Lower(c.name)[|path|] in ks
    decreases n, 0, ks
  {
    if ks != {} {
      var k := MinKey(ks);
      CollectUnderPath(n.children[k], path + [k]);
      CollectChildrenUnderPath(n, path, ks - {k});
      forall c | c in Collect(n.children[k])
        ensures path < Lower(c.name) && Lower(c.name)[|path|] in ks
      {
        var s := Lower(c.name);
        assert path + [k] <= s;
        assert s[..|path|] == (path + [k])[..|path|] == path;
        assert s[|path|] == (path + [k])[|path|] == k;
      }
    }
  }
}
