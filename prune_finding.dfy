/**
 * Delete's pruning test, as written, cuts a childless end node off its parent
 * even when contacts are left in it. Under case folding that keeps lengths
 * this never happens, because every contact at the node then matches the
 * deleted name ignoring case and is removed. With U+0130 it does happen: its
 * lower-case form is two characters, so "İ" and "i̇" share a node,
 * yet they are not equal ignoring case.
 */
module PruneFinding {
  import opened CaseFolding
  import opened Contacts
  import opened TrieNodes
  import opened TrieSpec

  /** Both pruning tests agree when every contact at the end node matches the deleted name. */
  lemma {:induction false} PruningTestsAgree(n: Node, key: string, name: string)
    requires Lookup(n, key).Some? ==> forall c :: c in Lookup(n, key).value.contacts ==> Matches(c, name)
    ensures Remove(n, key, name, true) == Remove(n, key, name, false)
  {
    RemoveNotFound(n, key, name, true);
    RemoveNotFound(n, key, name, false);
    if Lookup(n, key).Some? && Lookup(n, key).value.isEndOfWord {
      var f := Lookup(n, key).value;
      RemoveShape(n, key, name, true, f);
      RemoveShape(n, key, name, false, f);
      if RemoveMatching(f.contacts, name) != [] {
        var c := RemoveMatching(f.contacts, name)[0];
        assert c in RemoveMatching(f.contacts, name);
      }
    }
  }

  /**
   * The precondition under which the pruning as written cannot drop a
   * contact: neither the deleted name nor any stored name contains U+0130.
   * Then delete as written and delete corrected are the same operation.
   */
  lemma PruningSafeWithoutDottedI(n: Node, name: string)
    requires WellFormed(n, [])
    requires CapitalDottedI !in name
    requires forall c :: c in Contents(n) ==> CapitalDottedI !in c.name
    ensures DeleteNameAsWritten(n, name) == DeleteName(n, name)
  {
    EndNodeAllMatch(n, name);
    PruningTestsAgree(n, Lower(name), name);
  }

  const DottedName: string := [CapitalDottedI]
  const DecomposedName: string := ['i', CombiningDotAbove]
  const First: Contact := Contact(DottedName, "1", "first@example.com")
  const Second: Contact := Contact(DecomposedName, "2", "second@example.com")

  /** The index after inserting "İ" and then "i̇": both contacts sit at the node for "i̇". */
  const End: Node := Node(map[], true, [First, Second])
  const Middle: Node := Node(map[CombiningDotAbove := End], false, [])
  const TwoDottedIs: Node := Node(map['i' := Middle], false, [])

  /** A node with a single child collects its own contacts, then that child's subtree. */
  lemma CollectSingleChild(n: Node, k: char)
    requires n.children.Keys == {k}
    ensures Collect(n) == Own(n) + Collect(n.children[k])
  {
    assert MinKey({k}) == k;
    assert n.children.Keys - {k} == {};
    assert CollectChildren(n, {k}) == Collect(n.children[k]) + CollectChildren(n, {});
  }

  /** The lower-cased forms of the two names, and the single steps of the walk along them. */
  lemma Keys()
    ensures Lower(DottedName) == DecomposedName && Lower(DecomposedName) == DecomposedName
    ensures DecomposedName[0] == 'i' && DecomposedName[1..] == [CombiningDotAbove]
    ensures [CombiningDotAbove][0] == CombiningDotAbove && [CombiningDotAbove][1..] == []
  {
    assert DecomposedName[1..] == [CombiningDotAbove];
    assert Lower([CombiningDotAbove]) == [CombiningDotAbove];
  }

  /** Inserting the two contacts into an empty index builds exactly that tree. */
  lemma TwoDottedIsInserted()
    ensures InsertName(InsertName(Fresh, DottedName, First.phone, First.email),
                       DecomposedName, Second.phone, Second.email) == TwoDottedIs
  {
    Keys();
    var endOnce := Node(map[], true, [First]);
    var once := Node(map['i' := Node(map[CombiningDotAbove := endOnce], false, [])], false, []);
    assert AddContact(Fresh, First) == endOnce;
    assert InsertAt(Fresh, [], First) == endOnce;
    assert InsertAt(Fresh, [CombiningDotAbove], First) == Node(map[CombiningDotAbove := endOnce], false, []);
    assert InsertAt(Fresh, DecomposedName, First) == once;
    var middleOnce := Node(map[CombiningDotAbove := endOnce], false, []);
    assert AddContact(endOnce, Second) == End;
    assert InsertAt(middleOnce, [CombiningDotAbove], Second) == Middle;
  }

  /** The contents of the tree: both contacts, the first inserted first. */
  lemma TwoDottedIsContents()
    ensures Collect(TwoDottedIs) == [First, Second]
  {
    CollectSingleChild(TwoDottedIs, 'i');
    CollectSingleChild(Middle, CombiningDotAbove);
    assert Collect(End) == [First, Second];
  }

  /**
   * As written: `delete("İ")` removes the first contact only, leaves the
   * second at the end node, and then cuts that childless node off its parent,
   * so the second contact, which does not match the deleted name, is lost.
   */
  lemma AsWrittenPruneLosesContact()
    ensures !Matches(Second, DottedName)
    ensures Contents(TwoDottedIs) == multiset{First, Second}
    ensures DeleteNameAsWritten(TwoDottedIs, DottedName) == (Deleted, Node(map['i' := Node(map[], false, [])], false, []))
    ensures Contents(DeleteNameAsWritten(TwoDottedIs, DottedName).1) == multiset{}
  {
    Keys();
    TwoDottedIsContents();
    assert RemoveMatching(End.contacts, DottedName) == [Second];
    assert Strip(End, DottedName) == Node(map[], true, [Second]);
    assert Prunes(Strip(End, DottedName), true);
    assert Cut(Middle, CombiningDotAbove) == Node(map[], false, []);
    assert Remove(Middle, [CombiningDotAbove], DottedName, true) == (Deleted, Node(map[], false, []));
    assert Remove(TwoDottedIs, DecomposedName, DottedName, true)
        == (Deleted, TwoDottedIs.(children := TwoDottedIs.children['i' := Node(map[], false, [])]));
    assert TwoDottedIs.children['i' := Node(map[], false, [])] == map['i' := Node(map[], false, [])];
    var cutTree := Node(map['i' := Node(map[], false, [])], false, []);
    CollectSingleChild(cutTree, 'i');
    assert Collect(cutTree.children['i']) == [];
  }

  /** Corrected: the same delete keeps the node, and with it the second contact. */
  lemma CorrectedPruneKeepsContact()
    ensures DeleteName(TwoDottedIs, DottedName).0 == Deleted
    ensures Contents(DeleteName(TwoDottedIs, DottedName).1) == multiset{Second}
  {
    Keys();
    TwoDottedIsContents();
    assert Lookup(Middle, [CombiningDotAbove]) == Some(End);
    assert Lookup(TwoDottedIs, DecomposedName) == Some(End);
    assert Matching(End.contacts, DottedName) == [First];
    DeleteContents(TwoDottedIs, DecomposedName, DottedName, End);
    RemoveNotFound(TwoDottedIs, DecomposedName, DottedName, false);
  }
}
