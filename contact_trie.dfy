/**
 * The contact index as the program keeps it: one object owning the root node.
 * Each method walks the lower-cased key in a loop, as the index does; the
 * update it makes in place at the end of the walk is a write-back at the
 * walked path (`Replace`). Every method is proved equal to the reference
 * definition of its operation, and the updating ones keep the invariant.
 */
module ContactTrie {
  import opened CaseFolding
  import opened Contacts
  import opened TrieNodes
  import opened TrieSpec

  class Trie {
    var root: Node

    /** The index's invariant: flags agree with contact lists and names agree with paths. */
    ghost predicate Valid()
      reads this
    {
      WellFormed(root, [])
    }

    /** `new Trie()`: a root with no children and no contacts. */
    constructor ()
      ensures Valid() && root == Fresh
      ensures Collect(root) == []
    {
      root := Fresh;
    }

    /** `insert(name, phone, email)`. */
    method Insert(name: string, phone: string, email: string)
      requires Valid()
      modifies this
      ensures Valid()
      ensures root == InsertName(old(root), name, phone, email)
      ensures Contents(root) == old(Contents(root)) + multiset{Contact(name, phone, email)}
    {
      var key := Lower(name);
      var node := root;
      var i := 0;
      while i < |key|
        invariant 0 <= i <= |key|
        invariant unchanged(this)
        invariant node == Reach(root, key[..i])
      {
        node := Child(node, key[i]);
        ReachSnoc(root, key[..i], key[i]);
        assert key[..i + 1] == key[..i] + [key[i]];
        i := i + 1;
      }
      assert key[..i] == key;
      var c := Contact(name, phone, email);
      InsertIsReplace(root, key, c);
      InsertContents(root, key, c);
      InsertWellFormed(root, key, c);
      root := Replace(root, key, AddContact(node, c));
    }

    /**
     * `search(prefix)`: the walk along the lower-cased prefix, then the collection
     * below it; on a valid index that is every stored contact whose lower-cased
     * name starts with the lower-cased prefix, in listing order.
     */
    method Search(prefix: string) returns (result: seq<Contact>)
      ensures result == SearchPrefix(root, prefix)
      ensures Valid() ==> result == WithPrefix(Collect(root), Lower(prefix))
    {
      assert Valid() ==> SearchPrefix(root, prefix) == WithPrefix(Collect(root), Lower(prefix)) by {
        if Valid() {
          SearchIsFilter(root, prefix);
        }
      }
      var key := Lower(prefix);
      var node := root;
      var i := 0;
      while i < |key|
        invariant 0 <= i <= |key|
        invariant Lookup(root, key[..i]) == Some(node)
      {
        if key[i] !in node.children {
          LookupMissing(root, key, i, node);
          return [];
        }
        LookupStep(root, key, i, node);
        node := node.children[key[i]];
        i := i + 1;
      }
      assert key[..i] == key;
      result := Collect(node);
    }

    /** `displayAllContacts()`: the collection from the root, which is what `search("")` returns. */
    method DisplayAllContacts() returns (result: seq<Contact>)
      ensures result == Collect(root)
      ensures result == SearchPrefix(root, "")
    {
      result := Collect(root);
      SearchEmptyIsAll(root);
    }

    /** `delete(name)`, with the pruning test corrected (see `PruneFinding`). */
    method Delete(name: string) returns (outcome: Outcome)
      requires Valid()
      modifies this
      ensures Valid()
      ensures (outcome, root) == DeleteName(old(root), name)
      ensures outcome == NotFound ==> root == old(root)
    {
      var key := Lower(name);
      var node := root;
      var prev: Option<Node> := None;
      var prevChar: char := '\0';
      var i := 0;
      while i < |key|
        invariant 0 <= i <= |key|
        invariant Lookup(root, key[..i]) == Some(node)
        invariant unchanged(this)
        invariant i == 0 <==> prev == None
        invariant i > 0 ==> Lookup(root, key[..i - 1]) == prev && prevChar == key[i - 1]
      {
        if key[i] !in node.children {
          LookupMissing(root, key, i, node);
          RemoveNotFound(root, key, name, false);
          return NotFound;
        }
        LookupStep(root, key, i, node);
        assert key[..i + 1][..i] == key[..i];
        prev := Some(node);
        prevChar := key[i];
        node := node.children[key[i]];
        i := i + 1;
      }
      assert key[..i] == key;
      RemoveNotFound(root, key, name, false);
      DeleteWellFormed(root, key, name, false);
      if node.isEndOfWord {
        RemoveShape(root, key, name, false, node);
        var stripped := Strip(node, name);
        if Prunes(stripped, false) && prev.Some? {
          assert key[..i - 1] == Parent(key);
          LookupIsReach(root, Parent(key));
          root := Replace(root, key[..i - 1], Cut(prev.value, prevChar));
        } else {
          root := Replace(root, key, stripped);
        }
        outcome := Deleted;
      } else {
        outcome := NotFound;
      }
    }
  }
}
