/** The contact record and the removal filter that a delete applies to a node's list. */
module Contacts {
  import opened CaseFolding

  /** An immutable contact; the name keeps the case it was entered with. */
  datatype Contact = Contact(name: string, phone: string, email: string)

  /** The test a delete applies: the contact's name equals the given name ignoring case. */
  predicate Matches(c: Contact, name: string)
  {
    EqualsIgnoreCase(c.name, name)
  }

  /** `removeIf` on a contact list: the contacts that do not match, in their original order. */
  function RemoveMatching(cs: seq<Contact>, name: string): (kept: seq<Contact>)
    ensures |kept| <= |cs|
    ensures forall c :: c in kept ==> c in cs && !Matches(c, name)
    ensures forall c :: c in cs && !Matches(c, name) ==> c in kept
  {
    if cs == [] then []
    else if Matches(cs[0], name) then RemoveMatching(cs[1..], name)
    else [cs[0]] + RemoveMatching(cs[1..], name)
  }

  /** The contacts `removeIf` takes out of the list. */
  function Matching(cs: seq<Contact>, name: string): (removed: seq<Contact>)
    ensures |removed| <= |cs|
    ensures forall c :: c in removed ==> c in cs && Matches(c, name)
    ensures forall c :: c in cs && Matches(c, name) ==> c in removed
  {
    if cs == [] then []
    else if Matches(cs[0], name) then [cs[0]] + Matching(cs[1..], name)
    else Matching(cs[1..], name)
  }

  /** The kept and the removed contacts together are the original list, counted with repetition. */
  lemma {:induction false} RemoveMatchingSplits(cs: seq<Contact>, name: string)
    ensures multiset(RemoveMatching(cs, name)) + multiset(Matching(cs, name)) == multiset(cs)
  {
    if cs != [] {
      RemoveMatchingSplits(cs[1..], name);
      assert cs == [cs[0]] + cs[1..];
      assert multiset(cs) == multiset{cs[0]} + multiset(cs[1..]);
    }
  }

  /**
   * The contacts whose lower-cased name starts with `key`, in their original order:
   * what a prefix search is meant to return out of the full listing.
   */
  function WithPrefix(cs: seq<Contact>, key: string): (r: seq<Contact>)
    ensures forall c :: c in r <==> c in cs && key <= Lower(c.name)
  {
    if cs == [] then []
    else if key <= Lower(cs[0].name) then [cs[0]] + WithPrefix(cs[1..], key)
    else WithPrefix(cs[1..], key)
  }

  /** Filtering distributes over concatenation. */
  lemma {:induction false} WithPrefixAppend(a: seq<Contact>, b: seq<Contact>, key: string)
    ensures WithPrefix(a + b, key) == WithPrefix(a, key) + WithPrefix(b, key)
  {
    if a == [] {
      assert a + b == b;
    } else {
      assert (a + b)[1..] == a[1..] + b;
      WithPrefixAppend(a[1..], b, key);
    }
  }

  /** A list all of whose names start with `key` passes the filter unchanged. */
  lemma {:induction false} WithPrefixAll(cs: seq<Contact>, key: string)
    requires forall c :: c in cs ==> key <= Lower(c.name)
    ensures WithPrefix(cs, key) == cs
  {
    if cs != [] {
      WithPrefixAll(cs[1..], key);
      assert cs == [cs[0]] + cs[1..];
    }
  }

  /** A list none of whose names start with `key` filters to nothing. */
  lemma {:induction false} WithPrefixNone(cs: seq<Contact>, key: string)
    requires forall c :: c in cs ==> !(key <= Lower(c.name))
    ensures WithPrefix(cs, key) == []
  {
    if cs != [] {
      WithPrefixNone(cs[1..], key);
    }
  }

  /** Counted with repetition, the filter keeps every copy of a passing contact and none of the others. */
  lemma {:induction false} WithPrefixCounts(cs: seq<Contact>, key: string, c: Contact)
    ensures multiset(WithPrefix(cs, key))[c] == if key <= Lower(c.name) then multiset(cs)[c] else 0
  {
    if cs != [] {
      WithPrefixCounts(cs[1..], key, c);
      assert cs == [cs[0]] + cs[1..];
    }
  }
}
