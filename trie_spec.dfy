/**
 * The index's operations on trie values, and what they promise.
 *
 * `InsertAt`, `Find` and `Remove` are reference definitions by recursion on
 * the lower-cased key; the methods of `ContactTrie.Trie` walk the key in a
 * loop, as the index does, and are proved equal to them. `InsertName`,
 * `SearchPrefix` and `DeleteName` are the operations as a caller sees them,
 * with the name or prefix before lower-casing.
 */
module TrieSpec {
  import opened CaseFolding
  import opened Contacts
  import opened TrieNodes

  /** What a delete reports ("Contact deleted." / "Contact not found."). */
  datatype Outcome = Deleted | NotFound

  // --------------------------------------------------------------- insert

  /** The update insert makes at the end of its walk: mark the node terminal and append the contact. */
  function AddContact(m: Node, c: Contact): Node
  {
    m.(isEndOfWord := true, contacts := m.contacts + [c])
  }

  /** insert along a lower-cased key: create missing nodes on the way, then add the contact at the end. */
  function InsertAt(n: Node, key: string, c: Contact): Node
    decreases |key|
  {
    if key == [] then AddContact(n, c)
    else n.(children := n.children[key[0] := InsertAt(Child(n, key[0]), key[1..], c)])
  }

  /** `insert(name, phone, email)`: the key is the lower-cased name, the contact keeps the name as given. */
  function InsertName(n: Node, name: string, phone: string, email: string): Node
  {
    InsertAt(n, Lower(name), Contact(name, phone, email))
  }

  /** Insert is a walk that creates missing nodes, followed by one update at the node reached. */
  lemma {:induction false} InsertIsReplace(n: Node, key: string, c: Contact)
    ensures InsertAt(n, key, c) == Replace(n, key, AddContact(Reach(n, key), c))
    decreases |key|
  {
    if key != [] {
      InsertIsReplace(Child(n, key[0]), key[1..], c);
    }
  }

  /** After an insert, the node at the key is terminal and its last contact is the one inserted. */
  lemma InsertThenLookup(n: Node, key: string, c: Contact)
    ensures Lookup(InsertAt(n, key, c), key).Some?
    ensures var m := Lookup(InsertAt(n, key, c), key).value;
      m.isEndOfWord && m.contacts == Reach(n, key).contacts + [c]
  {
    InsertIsReplace(n, key, c);
    ReplaceThenLookup(n, key, AddContact(Reach(n, key), c), []);
    assert key + [] == key;
  }

  /** At a node whose flag agrees with its list, adding a contact adds exactly that contact. */
  lemma AddContactContents(m: Node, c: Contact)
    requires m.isEndOfWord <==> m.contacts != []
    ensures Contents(AddContact(m, c)) == Contents(m) + multiset{c}
  {
    assert Own(m) == m.contacts;
    CollectChildrenFrame(AddContact(m, c), m, m.children.Keys);
    assert Collect(AddContact(m, c)) == (Own(m) + [c]) + CollectChildren(m, m.children.Keys);
  }

  /** An insert adds exactly the one contact to the index, and keeps every contact stored before. */
  lemma InsertContents(n: Node, key: string, c: Contact)
    requires WellFormed(n, [])
    ensures Contents(InsertAt(n, key, c)) == Contents(n) + multiset{c}
  {
    var m := Reach(n, key);
    WellFormedAlongReach(n, [], key);
    assert [] + key == key;
    AddContactContents(m, c);
    InsertIsReplace(n, key, c);
    ContentsReplace(n, key, AddContact(m, c));
    MultisetCancel(Contents(InsertAt(n, key, c)), Contents(m), Contents(n) + multiset{c});
  }

  lemma MultisetCancel<T>(a: multiset<T>, b: multiset<T>, r: multiset<T>)
    requires a + b == r + b
    ensures a == r
  {
    forall x ensures a[x] == r[x] {
      assert (a + b)[x] == (r + b)[x];
    }
  }

  /** An insert keeps the invariant when the contact's lower-cased name is the key. */
  lemma InsertWellFormed(n: Node, key: string, c: Contact)
    requires WellFormed(n, []) && Lower(c.name) == key
    ensures WellFormed(InsertAt(n, key, c), [])
  {
    WellFormedAlongReach(n, [], key);
    assert [] + key == key;
    InsertIsReplace(n, key, c);
    WellFormedReplace(n, [], key, AddContact(Reach(n, key), c));
  }

  // --------------------------------------------------------------- search

  /** search along a lower-cased key: nothing if an edge is missing, else the reached subtree's collection. */
  function Find(n: Node, key: string): seq<Contact>
  {
    match Lookup(n, key)
    case None => []
    case Some(m) => Collect(m)
  }

  /** `search(prefix)`. */
  function SearchPrefix(n: Node, prefix: string): seq<Contact>
  {
    Find(n, Lower(prefix))
  }

  /**
   * Round trip: after `insert(name, phone, email)`, `search(name)` holds that
   * contact with the name in its original case and phone and email as given.
   */
  lemma SearchFindsInserted(n: Node, name: string, phone: string, email: string)
    ensures Contact(name, phone, email) in SearchPrefix(InsertName(n, name, phone, email), name)
  {
    var c := Contact(name, phone, email);
    InsertThenLookup(n, Lower(name), c);
    var m := Lookup(InsertName(n, name, phone, email), Lower(name)).value;
    assert c in m.contacts;
    assert Collect(m) == m.contacts + CollectChildren(m, m.children.Keys);
  }

  /** If the walk finds no child for some character of the lower-cased prefix, search returns nothing. */
  lemma SearchMissingEdge(n: Node, prefix: string, i: nat, m: Node)
    requires i < |Lower(prefix)|
    requires Lookup(n, Lower(prefix)[..i]) == Some(m) && Lower(prefix)[i] !in m.children
    ensures SearchPrefix(n, prefix) == []
  {
    LookupMissing(n, Lower(prefix), i, m);
  }

  /** `search("")` consumes no edge and collects from the root: it is `displayAllContacts()`. */
  lemma SearchEmptyIsAll(n: Node)
    ensures SearchPrefix(n, "") == Collect(n)
  {
  }

  /** Search is case-insensitive: searching with the lower-cased prefix gives the same list. */
  lemma SearchIgnoresCase(n: Node, prefix: string)
    ensures SearchPrefix(n, Lower(prefix)) == SearchPrefix(n, prefix)
  {
    LowerIdempotent(prefix);
  }

  /** "ALICE" and "alice" are the same search. */
  lemma SearchAliceAnyCase(n: Node)
    ensures SearchPrefix(n, "ALICE") == SearchPrefix(n, "alice")
  {
    assert Lower("ALICE") == "alice";
    assert Lower("alice") == "alice";
  }

  /** Prefix monotonicity: extending the prefix can only narrow the result, as a multiset. */
  lemma SearchMonotone(n: Node, p1: string, p2: string)
    requires p1 <= p2
    ensures multiset(SearchPrefix(n, p2)) <= multiset(SearchPrefix(n, p1))
  {
    var k1, k2 := Lower(p1), Lower(p2);
    LowerPrefix(p1, p2);
    var rest := k2[|k1|..];
    assert k2 == k1 + rest;
    LookupAppend(n, k1, rest);
    if Lookup(n, k2).Some? {
      var m1 := Lookup(n, k1).value;
      LookupIsReach(m1, rest);
      SubtreeContents(m1, rest);
    }
  }

  /** A name below the child on `k` does not start with a path that leaves through another character. */
  lemma PrefixesDiverge(s: string, path: string, k: char, key: string)
    requires path + [k] <= s && key != [] && key[0] != k
    ensures !(path + key <= s)
  {
    assert (path + [k])[|path|] == k && (path + key)[|path|] == key[0];
    assert s[|path|] == k;
  }

  /** A node's own contacts sit exactly at its path, so no longer prefix keeps any of them. */
  lemma OwnAbovePrefix(n: Node, path: string, key: string)
    requires WellFormed(n, path) && key != []
    ensures WithPrefix(Own(n), path + key) == []
  {
    forall c | c in Own(n)
      ensures !(path + key <= Lower(c.name))
    {
      assert Lower(c.name) == path && |path| < |path + key|;
    }
    WithPrefixNone(Own(n), path + key);
  }

  /**
   * Collecting the children named in `ks` and keeping the names that start with
   * `path + key` leaves only what the child on the key's first character holds.
   */
  lemma {:induction false} WithPrefixChildren(n: Node, path: string, ks: set<char>, key: string)
    requires WellFormed(n, path) && ks <= n.children.Keys && key != []
    ensures WithPrefix(CollectChildren(n, ks), path + key)
         == if key[0] in ks then WithPrefix(Collect(n.children[key[0]]), path + key) else []
    decreases ks
  {
    if ks != {} {
      var k := MinKey(ks);
      var here := Collect(n.children[k]);
      assert CollectChildren(n, ks) == here + CollectChildren(n, ks - {k});
      WithPrefixAppend(here, CollectChildren(n, ks - {k}), path + key);
      WithPrefixChildren(n, path, ks - {k}, key);
      if k != key[0] {
        CollectUnderPath(n.children[k], path + [k]);
        forall c | c in here
          ensures !(path + key <= Lower(c.name))
        {
          PrefixesDiverge(Lower(c.name), path, k, key);
        }
        WithPrefixNone(here, path + key);
      }
    }
  }

  /**
   * Below a well-formed node at `path`, following `key` collects exactly the
   * contacts, in listing order, whose lower-cased name starts with `path + key`.
   */
  lemma {:induction false} FindIsFilter(n: Node, path: string, key: string)
    requires WellFormed(n, path)
    ensures Find(n, key) == WithPrefix(Collect(n), path + key)
    decreases |key|
  {
    if key == [] {
      assert path + key == path;
      WithPrefixAtPath(n, path);
    } else if key[0] in n.children {
      WithPrefixOneChild(n, path, key);
      FindOnChild(n, key);
      WellFormedChild(n, path, key[0]);
      FindIsFilter(n.children[key[0]], path + [key[0]], key[1..]);
    } else {
      WithPrefixOneChild(n, path, key);
      FindMissingChild(n, key);
    }
  }

  /** Filtering a node's collection by its own path keeps all of it. */
  lemma WithPrefixAtPath(n: Node, path: string)
    requires WellFormed(n, path)
    ensures WithPrefix(Collect(n), path) == Collect(n)
  {
    CollectUnderPath(n, path);
    WithPrefixAll(Collect(n), path);
  }

  /** Filtering a node's collection by a key longer than its path keeps only the subtree on the key's next edge. */
  lemma WithPrefixOneChild(n: Node, path: string, key: string)
    requires WellFormed(n, path) && key != []
    ensures WithPrefix(Collect(n), path + key)
         == if key[0] in n.children then WithPrefix(Collect(n.children[key[0]]), path + key) else []
  {
    WithPrefixAppend(Own(n), CollectChildren(n, n.children.Keys), path + key);
    OwnAbovePrefix(n, path, key);
    WithPrefixChildren(n, path, n.children.Keys, key);
  }

  /** Search along a key through an existing edge is search along the rest of the key below it. */
  lemma FindOnChild(n: Node, key: string)
    requires key != [] && key[0] in n.children
    ensures Find(n, key) == Find(n.children[key[0]], key[1..])
    ensures forall path: string :: path + key == (path + [key[0]]) + key[1..]
  {
    forall path: string
      ensures path + key == (path + [key[0]]) + key[1..]
    {
      assert key == [key[0]] + key[1..];
    }
    assert Lookup(n, key) == Lookup(n.children[key[0]], key[1..]);
  }

  /** Search along a key whose first edge is missing finds nothing. */
  lemma FindMissingChild(n: Node, key: string)
    requires key != [] && key[0] !in n.children
    ensures Find(n, key) == []
  {
    assert Lookup(n, key) == None;
  }

  /**
   * Search means prefix filtering: `search(prefix)` is exactly the list that
   * `displayAllContacts()` shows, cut down to the contacts whose lower-cased
   * name starts with the lower-cased prefix, in the same order.
   */
  lemma SearchIsFilter(n: Node, prefix: string)
    requires WellFormed(n, [])
    ensures SearchPrefix(n, prefix) == WithPrefix(Collect(n), Lower(prefix))
  {
    FindIsFilter(n, [], Lower(prefix));
    assert [] + Lower(prefix) == Lower(prefix);
  }

  /**
   * Sound and complete: a contact is found by `search(prefix)` exactly when it is
   * stored and its lower-cased name starts with the lower-cased prefix; counted
   * with repetition, every stored copy is returned.
   */
  lemma SearchSoundComplete(n: Node, prefix: string, c: Contact)
    requires WellFormed(n, [])
    ensures c in SearchPrefix(n, prefix) <==> c in Contents(n) && Lower(prefix) <= Lower(c.name)
    ensures multiset(SearchPrefix(n, prefix))[c]
         == if Lower(prefix) <= Lower(c.name) then Contents(n)[c] else 0
  {
    SearchIsFilter(n, prefix);
    WithPrefixCounts(Collect(n), Lower(prefix), c);
  }

  /** Unknown prefix: when no stored name starts with the prefix, ignoring case, search returns nothing. */
  lemma SearchUnknownPrefix(n: Node, prefix: string)
    requires WellFormed(n, [])
    requires forall c :: c in Contents(n) ==> !(Lower(prefix) <= Lower(c.name))
    ensures SearchPrefix(n, prefix) == []
  {
    SearchIsFilter(n, prefix);
    forall c | c in Collect(n)
      ensures !(Lower(prefix) <= Lower(c.name))
    {
      assert c in Contents(n);
    }
    WithPrefixNone(Collect(n), Lower(prefix));
  }

  // --------------------------------------------------------------- delete

  /**
   * The update delete makes at a terminal node: remove every contact whose
   * name equals the given name ignoring case, and clear the flag if none is left.
   */
  function Strip(f: Node, name: string): Node
  {
    var kept := RemoveMatching(f.contacts, name);
    f.(contacts := kept, isEndOfWord := if kept == [] then false else f.isEndOfWord)
  }

  /**
   * Whether delete cuts the stripped node off its parent. As written, a node
   * without children is cut; corrected, it is cut only if it also holds no
   * contacts any more.
   */
  predicate Prunes(s: Node, asWritten: bool)
  {
    s.children == map[] && (asWritten || s.contacts == [])
  }

  /** The node with the edge c removed from its children. */
  function Cut(p: Node, c: char): Node
  {
    p.(children := p.children - {c})
  }

  /**
   * delete along a lower-cased key. A missing edge or a non-terminal end node
   * leaves the tree as it is and reports not found. Otherwise the end node is
   * stripped and, if `Prunes` says so and it has a parent, the edge from its
   * parent is removed; no other node is pruned.
   */
  function Remove(n: Node, key: string, name: string, asWritten: bool): (Outcome, Node)
    decreases |key|
  {
    if key == [] then
      if n.isEndOfWord then (Deleted, Strip(n, name)) else (NotFound, n)
    else if key[0] !in n.children then (NotFound, n)
    else
      var child := n.children[key[0]];
      if |key| == 1 && child.isEndOfWord && Prunes(Strip(child, name), asWritten) then
        (Deleted, Cut(n, key[0]))
      else
        var (o, child') := Remove(child, key[1..], name, asWritten);
        if o == NotFound then (NotFound, n) else (Deleted, n.(children := n.children[key[0] := child']))
  }

  /** `delete(name)` with the corrected pruning test. */
  function DeleteName(n: Node, name: string): (Outcome, Node)
  {
    Remove(n, Lower(name), name, false)
  }

  /** `delete(name)` with the pruning test as written. */
  function DeleteNameAsWritten(n: Node, name: string): (Outcome, Node)
  {
    Remove(n, Lower(name), name, true)
  }

  /** The path of the parent of the node at a non-empty key. */
  function Parent(key: string): string
    requires key != []
  {
    key[..|key| - 1]
  }

  /**
   * Delete fails exactly when the walk hits a missing edge or ends at a
   * non-terminal node, and a failed delete leaves the tree unchanged.
   */
  lemma {:induction false} RemoveNotFound(n: Node, key: string, name: string, asWritten: bool)
    ensures Remove(n, key, name, asWritten).0 == NotFound
        <==> Lookup(n, key) == None || !Lookup(n, key).value.isEndOfWord
    ensures Remove(n, key, name, asWritten).0 == NotFound ==> Remove(n, key, name, asWritten).1 == n
    decreases |key|
  {
    if key != [] && key[0] in n.children {
      RemoveNotFound(n.children[key[0]], key[1..], name, asWritten);
    }
  }

  /** Whether a successful delete at the end node f cuts an edge. */
  predicate PrunedAt(key: string, f: Node, name: string, asWritten: bool)
  {
    key != [] && Prunes(Strip(f, name), asWritten)
  }

  /**
   * A successful delete is one update at the end of the walk: either the
   * stripped node is written back in place, or the edge from its parent is cut.
   */
  lemma {:induction false} RemoveShape(n: Node, key: string, name: string, asWritten: bool, f: Node)
    requires Lookup(n, key) == Some(f) && f.isEndOfWord
    ensures Remove(n, key, name, asWritten) ==
      (Deleted,
       if PrunedAt(key, f, name, asWritten)
       then Replace(n, Parent(key), Cut(Reach(n, Parent(key)), key[|key| - 1]))
       else Replace(n, key, Strip(f, name)))
    decreases |key|
  {
    if |key| > 1 {
      var k := key[0];
      var child := n.children[k];
      RemoveShape(child, key[1..], name, asWritten, f);
      assert Parent(key) == [k] + Parent(key[1..]);
      assert key[1..][|key[1..]| - 1] == key[|key| - 1];
      RemoveNotFound(child, key[1..], name, asWritten);
    } else if |key| == 1 {
      assert Parent(key) == [];
    }
  }

  /** Stripping a terminal node takes out exactly the contacts that match the name. */
  lemma StripContents(f: Node, name: string)
    requires f.isEndOfWord
    ensures Contents(Strip(f, name)) + multiset(Matching(f.contacts, name)) == Contents(f)
  {
    var s := Strip(f, name);
    RemoveMatchingSplits(f.contacts, name);
    assert Own(s) == RemoveMatching(f.contacts, name);
    CollectChildrenFrame(s, f, f.children.Keys);
  }

  /**
   * A successful delete (with the corrected pruning test) removes from the
   * index exactly the contacts at the end node whose name matches, and
   * nothing else.
   */
  lemma DeleteContents(n: Node, key: string, name: string, f: Node)
    requires Lookup(n, key) == Some(f) && f.isEndOfWord
    ensures Contents(Remove(n, key, name, false).1) + multiset(Matching(f.contacts, name)) == Contents(n)
  {
    RemoveShape(n, key, name, false, f);
    if PrunedAt(key, f, name, false) {
      PrunedContents(n, key, name, f);
    } else {
      InPlaceContents(n, key, name, f);
    }
  }

  /** Writing back the stripped end node loses exactly the matching contacts. */
  lemma InPlaceContents(n: Node, key: string, name: string, f: Node)
    requires Lookup(n, key) == Some(f) && f.isEndOfWord
    ensures Contents(Replace(n, key, Strip(f, name))) + multiset(Matching(f.contacts, name)) == Contents(n)
  {
    var s := Strip(f, name);
    LookupIsReach(n, key);
    StripContents(f, name);
    ContentsReplace(n, key, s);
    MultisetTrade(Contents(Replace(n, key, s)), Contents(f), Contents(n), Contents(s),
                  multiset(Matching(f.contacts, name)), multiset{});
  }

  /**
   * Cutting the end node off its parent, when the corrected test holds, loses
   * exactly the matching contacts: the node keeps no contact and no child.
   */
  lemma PrunedContents(n: Node, key: string, name: string, f: Node)
    requires Lookup(n, key) == Some(f) && f.isEndOfWord && PrunedAt(key, f, name, false)
    ensures Contents(Replace(n, Parent(key), Cut(Reach(n, Parent(key)), key[|key| - 1])))
          + multiset(Matching(f.contacts, name)) == Contents(n)
  {
    var s := Strip(f, name);
    StripContents(f, name);
    var p, k := Parent(key), key[|key| - 1];
    assert key == p + [k];
    LookupAppend(n, p, [k]);
    var par := Lookup(n, p).value;
    LookupIsReach(n, p);
    assert f == par.children[k];
    ContentsReplace(n, p, Cut(par, k));
    ContentsWithoutChild(par, k);
    assert Collect(s) == [];
    MultisetTrade(Contents(Replace(n, p, Cut(par, k))), Contents(par), Contents(n),
                  Contents(Cut(par, k)), multiset(Matching(f.contacts, name)), multiset{});
  }


  /** A stripped node is well-formed wherever the node itself was. */
  lemma StripWellFormed(f: Node, path: string, name: string)
    requires WellFormed(f, path) && f.isEndOfWord
    ensures WellFormed(Strip(f, name), path)
  {
  }

  /** Cutting an edge keeps a node well-formed. */
  lemma CutWellFormed(p: Node, path: string, k: char)
    requires WellFormed(p, path)
    ensures WellFormed(Cut(p, k), path)
  {
  }

  /** Writing back an update at the end of a successful walk keeps the tree well-formed. */
  lemma UpdateAtLookupWellFormed(n: Node, key: string, m: Node)
    requires WellFormed(n, []) && Lookup(n, key).Some?
    requires WellFormed(Lookup(n, key).value, key) ==> WellFormed(m, key)
    ensures WellFormed(Replace(n, key, m), [])
  {
    WellFormedAlongLookup(n, [], key);
    assert [] + key == key;
    WellFormedReplace(n, [], key, m);
  }

  /** Delete keeps the invariant, under either pruning test. */
  lemma DeleteWellFormed(n: Node, key: string, name: string, asWritten: bool)
    requires WellFormed(n, [])
    ensures WellFormed(Remove(n, key, name, asWritten).1, [])
  {
    RemoveNotFound(n, key, name, asWritten);
    if Lookup(n, key).Some? && Lookup(n, key).value.isEndOfWord {
      var f := Lookup(n, key).value;
      RemoveShape(n, key, name, asWritten, f);
      if key != [] && Prunes(Strip(f, name), asWritten) {
        var p, k := Parent(key), key[|key| - 1];
        assert key == p + [k];
        LookupAppend(n, p, [k]);
        LookupIsReach(n, p);
        var par := Reach(n, p);
        if WellFormed(par, p) {
          CutWellFormed(par, p, k);
        }
        UpdateAtLookupWellFormed(n, p, Cut(par, k));
      } else {
        if WellFormed(f, key) {
          StripWellFormed(f, key, name);
        }
        UpdateAtLookupWellFormed(n, key, Strip(f, name));
      }
    }
  }

  /** One step below a node depends only on its children. */
  lemma LookupBelow(a: Node, b: Node, r: string)
    requires r != [] && a.children == b.children
    ensures Lookup(a, r) == Lookup(b, r)
  {
  }

  /**
   * What a successful delete does to every path q of the tree: a path
   * branching away from the key, or running below it, leads where it led
   * before; every proper prefix of the key still leads to a node with the
   * same flag and contacts, so no ancestor is pruned; and the key itself leads
   * to the stripped node, or nowhere once its edge is cut.
   */
  lemma {:induction false} DeleteLocal(n: Node, key: string, name: string, asWritten: bool, f: Node, q: string)
    requires Lookup(n, key) == Some(f) && f.isEndOfWord
    ensures var t := Remove(n, key, name, asWritten).1;
      && (!(key <= q) && !(q <= key) ==> Lookup(t, q) == Lookup(n, q))
      && (key < q ==> Lookup(t, q) == Lookup(n, q))
      && (q < key ==> Lookup(t, q).Some? && Lookup(n, q).Some?
                      && Lookup(t, q).value.isEndOfWord == Lookup(n, q).value.isEndOfWord
                      && Lookup(t, q).value.contacts == Lookup(n, q).value.contacts)
      && Lookup(t, key) == if PrunedAt(key, f, name, asWritten) then None else Some(Strip(f, name))
  {
    RemoveShape(n, key, name, asWritten, f);
    if q < key {
      assert key == q + key[|q|..];
      LookupAppend(n, q, key[|q|..]);
      LookupIsReach(n, q);
    }
    if PrunedAt(key, f, name, asWritten) {
      DeletePrunedLocal(n, key, name, asWritten, f, q);
    } else {
      DeleteInPlaceLocal(n, key, Strip(f, name), f, q);
    }
  }

  /** The paths of a tree in which the node at key, reached by a walk, was replaced by s with the same children. */
  lemma {:induction false} DeleteInPlaceLocal(n: Node, key: string, s: Node, f: Node, q: string)
    requires Lookup(n, key) == Some(f) && s.children == f.children
    ensures var t := Replace(n, key, s);
      && (!(key <= q) && !(q <= key) ==> Lookup(t, q) == Lookup(n, q))
      && (key < q ==> Lookup(t, q) == Lookup(n, q))
      && (q < key ==> Lookup(t, q).Some? && Lookup(t, q).value.isEndOfWord == Reach(n, q).isEndOfWord
                      && Lookup(t, q).value.contacts == Reach(n, q).contacts)
      && Lookup(t, key) == Some(s)
  {
    ReplaceThenLookup(n, key, s, []);
    assert key + [] == key;
    if !(key <= q) && !(q <= key) {
      ReplaceElsewhere(n, key, s, q);
    } else if key < q {
      var r := q[|key|..];
      assert q == key + r && r != [];
      ReplaceThenLookup(n, key, s, r);
      LookupAppend(n, key, r);
      LookupBelow(s, f, r);
    } else if q < key {
      ReplaceKeepsAncestors(n, key, s, q);
    }
  }

  /** The paths of a tree after the edge to the childless end node of a walk was cut from its parent. */
  lemma DeletePrunedLocal(n: Node, key: string, name: string, asWritten: bool, f: Node, q: string)
    requires Lookup(n, key) == Some(f) && f.isEndOfWord && PrunedAt(key, f, name, asWritten)
    ensures var t := Replace(n, Parent(key), Cut(Reach(n, Parent(key)), key[|key| - 1]));
      && (!(key <= q) && !(q <= key) ==> Lookup(t, q) == Lookup(n, q))
      && (key < q ==> Lookup(t, q) == Lookup(n, q))
      && (q < key ==> Lookup(t, q).Some? && Lookup(t, q).value.isEndOfWord == Reach(n, q).isEndOfWord
                      && Lookup(t, q).value.contacts == Reach(n, q).contacts)
      && Lookup(t, key) == None
  {
    var p, k := Parent(key), key[|key| - 1];
    assert key == p + [k];
    LookupAppend(n, p, [k]);
    LookupIsReach(n, p);
    var par := Reach(n, p);
    var cut := Cut(par, k);
    var t := Replace(n, p, cut);
    assert f == par.children[k] && f.children == map[];
    ReplaceThenLookup(n, p, cut, [k]);
    if !(key <= q) && !(q <= key) {
      if !(p <= q) {
        ReplaceElsewhere(n, p, cut, q);
      } else {
        var r := q[|p|..];
        assert q == p + r && r != [] && r[0] != k;
        ReplaceThenLookup(n, p, cut, r);
        LookupAppend(n, p, r);
      }
    } else if key < q {
      var r := q[|key|..];
      assert q == key + r && r != [];
      LookupAppend(n, key, r);
      LookupAppend(t, key, r);
    } else if q < key {
      if q == p {
        ReplaceThenLookup(n, p, cut, []);
        assert p + [] == p;
      } else {
        ReplaceKeepsAncestors(n, p, cut, q);
      }
    }
  }

  /**
   * When every contact at the end node matches the name (always so without
   * U+0130), a second delete of the same name reports not found.
   */
  lemma DeleteTwiceNotFound(n: Node, name: string)
    requires Lookup(n, Lower(name)).Some? ==>
               forall c :: c in Lookup(n, Lower(name)).value.contacts ==> Matches(c, name)
    ensures DeleteName(DeleteName(n, name).1, name).0 == NotFound
  {
    var key := Lower(name);
    RemoveNotFound(n, key, name, false);
    var t := DeleteName(n, name).1;
    if Lookup(n, key).Some? && Lookup(n, key).value.isEndOfWord {
      var f := Lookup(n, key).value;
      DeleteLocal(n, key, name, false, f, key);
      if RemoveMatching(f.contacts, name) != [] {
        assert RemoveMatching(f.contacts, name)[0] in RemoveMatching(f.contacts, name);
      }
    }
    RemoveNotFound(t, key, name, false);
  }
  /**
   * Without U+0130 in the deleted name or in any stored name, lower-casing keeps
   * lengths, so every contact stored at the node the name leads to matches the
   * name ignoring case.
   */
  lemma EndNodeAllMatch(n: Node, name: string)
    requires WellFormed(n, [])
    requires CapitalDottedI !in name
    requires forall c :: c in Contents(n) ==> CapitalDottedI !in c.name
    ensures Lookup(n, Lower(name)).Some? ==>
              forall c :: c in Lookup(n, Lower(name)).value.contacts ==> Matches(c, name)
  {
    var key := Lower(name);
    if Lookup(n, key).Some? {
      var f := Lookup(n, key).value;
      WellFormedAlongLookup(n, [], key);
      assert [] + key == key;
      LookupIsReach(n, key);
      SubtreeContents(n, key);
      forall c | c in f.contacts ensures Matches(c, name) {
        assert f.isEndOfWord && Own(f) == f.contacts;
        assert c in Contents(f);
        IgnoreCaseAgreesWithLower(c.name, name);
      }
    }
  }

  /**
   * On an index whose names avoid U+0130, a second `delete(name)` reports not
   * found: once `delete("bob")` has removed every "Bob", `delete("bob")` again
   * finds nothing.
   */
  lemma DeleteTwiceNotFoundWithoutDottedI(n: Node, name: string)
    requires WellFormed(n, [])
    requires CapitalDottedI !in name
    requires forall c :: c in Contents(n) ==> CapitalDottedI !in c.name
    ensures DeleteName(DeleteName(n, name).1, name).0 == NotFound
  {
    EndNodeAllMatch(n, name);
    DeleteTwiceNotFound(n, name);
  }

}
