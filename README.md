# Contact index: a prefix tree of contacts, in Dafny

This project models the core of a small contact manager: an in-memory prefix
tree (trie) that indexes contacts (name, phone, email) by the lower-cased
characters of their names. The index supports four operations: `insert`,
prefix `search`, `displayAllContacts`, and `delete` with pruning of one leaf
edge.

- `case_folding.dfy` (module `CaseFolding`) models Java's `String.toLowerCase`
  and `String.equalsIgnoreCase`. The model covers ASCII letters and one
  character whose case folding is not one-to-one: U+0130, LATIN CAPITAL
  LETTER I WITH DOT ABOVE. Outside Turkic locales it lower-cases to the two
  characters `i` and U+0307.
- `contacts.dfy` (module `Contacts`) holds the `Contact` record and the
  `removeIf` filter that delete applies to a node's list.
- `trie_nodes.dfy` (module `TrieNodes`) holds `TrieNode` as the datatype
  `Node`. It defines the walks along a key: `Lookup` follows existing edges,
  as search and delete do, and `Reach` creates missing edges, as insert does.
  `Replace` writes back an update made at the end of a walk. `Collect` is the
  pre-order collection. `WellFormed` is the index's invariant.
- `trie_spec.dfy` (module `TrieSpec`) gives reference definitions of insert,
  search and delete (`InsertAt`, `Find`, `Remove`) and proves what they
  promise. Search, for one, returns exactly the stored contacts whose
  lower-cased name starts with the lower-cased prefix (`SearchIsFilter`).
- `contact_trie.dfy` (module `ContactTrie`) holds the `Trie` class. It owns
  the root. Its methods walk the key in a loop, as the Java methods do, and
  are proved equal to the reference definitions. The updating methods also
  keep the invariant.
- `prune_finding.dfy` (module `PruneFinding`) covers delete's pruning test
  (see "## Findings").

Nodes are exclusively owned by their parent, so a tree of nodes is a value.
An update the Java code makes in place at the end of a walk appears here as
`Replace` at the walked path. Every node on that path keeps its flag and its
contacts (`TrieNodes.ReplaceKeepsAncestors`). Children are visited in
ascending order of edge character. Order-insensitive facts are stated as
multisets (`Contents`).

## Model

| member | source | states |
|---|---|---|
| `CaseFolding.LowerChar` | contact.java:102 | definition of `Character.toLowerCase` on one character, as equalsIgnoreCase consults it: `A`-`Z` to `a`-`z`, U+0130 to the single `i`, every other character unchanged; its meaning is proved in `CaseFolding.CharsMatchIsLowerEqual` and `CaseFolding.LowerWithoutDottedI` |
| `CaseFolding.UpperChar` | contact.java:102 | definition of `Character.toUpperCase` on one character, as equalsIgnoreCase consults it: `a`-`z` to `A`-`Z`, every other character unchanged |
| `CaseFolding.LowerPart` | contact.java:48 | definition of `String.toLowerCase` on one character, outside Turkic locales: U+0130 becomes the two characters `i` and U+0307 (the key mapping the prune finding rests on), every other character its `CaseFolding.LowerChar` form; the same mapping builds the keys at contact.java:59 and 91 |
| `CaseFolding.Lower` | contact.java:48 | lower-casing never shortens a name, at most doubles it, and never leaves U+0130 in the result |
| `CaseFolding.LowerAppend` | contact.java:48 | lower-casing distributes over concatenation |
| `CaseFolding.LowerPrefix` | contact.java:59 | a prefix of a string lower-cases to a prefix of its lower-case form |
| `CaseFolding.LowerIdempotent` | contact.java:59 | lower-casing an already lower-cased string changes nothing |
| `CaseFolding.CharsMatchIgnoringCase` | contact.java:102 | definition of equalsIgnoreCase's per-character test (after `String.regionMatches`): the characters are equal, or their upper-case forms are, or the lower-case forms of those are |
| `CaseFolding.EqualsIgnoreCase` | contact.java:102 | definition of `String.equalsIgnoreCase`: equal lengths and every pair of characters at the same position passes the per-character test; `CaseFolding.IgnoreCaseAgreesWithLower` and `CaseFolding.DottedIDisagrees` relate it to lower-casing |
| `CaseFolding.CharsMatchIsLowerEqual` | contact.java:102 | the per-character test of equalsIgnoreCase holds exactly when the characters' lower-case forms are equal |
| `CaseFolding.LowerWithoutDottedI` | contact.java:48 | without U+0130, lower-casing keeps the length and maps each character on its own |
| `CaseFolding.IgnoreCaseAgreesWithLower` | contact.java:102 | for names without U+0130, equalsIgnoreCase holds if and only if the lower-case forms are equal |
| `CaseFolding.DottedIDisagrees` | contact.java:102 | "İ" equals "i" ignoring case, yet the two lower-case forms differ |
| `Contacts.Contact` | contact.java:20-35 | the immutable contact record: name in the case it was entered, phone and email |
| `Contacts.Matches` | contact.java:102 | definition of removeIf's predicate: the contact's stored name equals the deleted name ignoring case |
| `Contacts.RemoveMatching` | contact.java:102 | removeIf keeps exactly the contacts whose name does not equal the given name ignoring case, and nothing else |
| `Contacts.Matching` | contact.java:102 | the removed contacts are exactly those whose name equals the given name ignoring case |
| `Contacts.RemoveMatchingSplits` | contact.java:102 | kept plus removed contacts are the original list, as a multiset |
| `Contacts.WithPrefix` | contact.java:57-66 | the reference meaning of a prefix search over a list: exactly the contacts of the list whose lower-cased name starts with the key, in their original order |
| `Contacts.WithPrefixAppend` | contact.java:74-76 | filtering a concatenation filters each part |
| `Contacts.WithPrefixAll` | contact.java:57-66 | a list all of whose names start with the key filters to itself |
| `Contacts.WithPrefixNone` | contact.java:57-66 | a list none of whose names start with the key filters to the empty list |
| `Contacts.WithPrefixCounts` | contact.java:57-66 | counted with repetition, the filter keeps every copy of a contact whose name starts with the key and no copy of any other |
| `TrieNodes.Node` | contact.java:7-17 | `TrieNode` as a value: the children by edge character, the end-of-word flag and the contact list; a node is owned by its parent alone |
| `TrieNodes.Fresh` | contact.java:12-16 | `new TrieNode()`: no children, flag clear, no contacts; the root of a new index (contact.java:42) and every node insert creates (contact.java:49) |
| `TrieNodes.Child` | contact.java:49-50 | definition of `putIfAbsent(c, new TrieNode())` then `get(c)`: the existing child on edge c, or a fresh empty node |
| `TrieNodes.Lookup` | contact.java:59-63 | definition of the walk of search (and of delete, contact.java:91-99): follow existing edges along the key, and fail at the first missing one |
| `TrieNodes.Reach` | contact.java:48-51 | definition of the walk of insert: follow each edge along the key, creating it when missing |
| `TrieNodes.Replace` | contact.java:48-53 | definition of the in-place update at the end of a walk, as a write-back of the updated node at the walked path, creating missing nodes on the way; both insert (contact.java:52-53) and delete (contact.java:102-107) update through it, and `TrieNodes.ReplaceThenLookup`, `TrieNodes.ReplaceElsewhere`, `TrieNodes.ReplaceKeepsAncestors` and `TrieNodes.ContentsReplace` state what it changes and what it keeps |
| `TrieNodes.Own` | contact.java:71-73 | definition of the contacts a node contributes to a collection: its list when its flag is set, nothing otherwise |
| `TrieNodes.Collect` | contact.java:69-78 | definition of collectAllContacts: the node's own contacts, then each child's collection in turn; children are taken in ascending edge order (see `TrieNodes.MinKey`) |
| `TrieNodes.CollectChildren` | contact.java:74-76 | definition of collectAllContacts's loop over the children named in a key set, smallest edge first |
| `TrieNodes.WellFormed` | contact.java:12-16 | the invariant every index keeps, starting from the empty root node: a node's flag is set exactly when its list is non-empty, and every contact stored at a node has the node's path as its lower-cased name |
| `TrieNodes.WellFormedChild` | contact.java:63 | the invariant holds at every child, at the path extended by the child's edge |
| `TrieNodes.MinKey` | contact.java:74 | children are visited from the smallest remaining edge character, a fixed order |
| `TrieNodes.LookupAppend` | contact.java:59-63 | walking p and then q is walking p + q, and a walk that fails on p fails on p + q |
| `TrieNodes.LookupStep` | contact.java:59-63 | one more character of the walk follows the existing child or fails |
| `TrieNodes.LookupMissing` | contact.java:59-62 | if the next character has no child at some step of the walk, the whole key has no node |
| `TrieNodes.ReachSnoc` | contact.java:48-51 | one more character of the insert walk moves to the child, created if absent |
| `TrieNodes.LookupIsReach` | contact.java:48-51 | where the search walk succeeds, the insert walk reaches the same node and creates nothing |
| `TrieNodes.ReplaceThenLookup` | contact.java:52-53 | after an update at the end of a walk, the walked path leads to the updated node and to its subtree |
| `TrieNodes.ReplaceElsewhere` | contact.java:52-53 | an update at the end of a walk leaves every path branching away from it as it was |
| `TrieNodes.ReplaceKeepsAncestors` | contact.java:48-53 | every proper prefix of the walked path still leads to a node with its flag and contacts unchanged |
| `TrieNodes.CollectChildrenFrame` | contact.java:74-76 | the collection over a set of children depends only on those children |
| `TrieNodes.CollectChildrenSplit` | contact.java:74-76 | any one child's subtree can be taken out of the children's collection, as a multiset |
| `TrieNodes.ContentsAroundChild` | contact.java:69-78 | a node's contents are its own contacts, the subtree on one edge and the other subtrees |
| `TrieNodes.ContentsWithoutChild` | contact.java:107 | cutting an edge loses exactly the contacts of the subtree below it |
| `TrieNodes.ContentsReplaceChild` | contact.java:69-78 | replacing one child trades its subtree's contacts for the new child's |
| `TrieNodes.ContentsReplace` | contact.java:69-78 | an update at the end of a walk trades the old subtree's contacts for the new node's and keeps all others |
| `TrieNodes.SubtreeContents` | contact.java:69-78 | the contacts below any path are among the contacts of the whole tree |
| `TrieNodes.CollectUnderPath` | contact.java:69-78 | in a well-formed tree, every contact collected below a node has the node's path as a prefix of its lower-cased name |
| `TrieNodes.CollectChildrenUnderPath` | contact.java:74-76 | every contact collected from a set of children lies strictly below the node, and the next character of its lower-cased name is one of those children's edges |
| `TrieNodes.WellFormedAlongLookup` | contact.java:12-16 | the invariant holds at every node a walk reaches, at the path walked |
| `TrieNodes.WellFormedAlongReach` | contact.java:12-16 | the invariant holds at every node the insert walk reaches, created nodes included |
| `TrieNodes.WellFormedReplace` | contact.java:12-16 | writing back a well-formed node at its own path keeps the whole tree well-formed |
| `TrieSpec.Outcome` | contact.java:93-111 | what delete reports, in place of its printed messages: `NotFound` for "Contact not found." (contact.java:93, 111), `Deleted` for "Contact deleted." (contact.java:109) |
| `TrieSpec.AddContact` | contact.java:52-53 | definition of the update at the end of insert's walk: set the flag and append the contact |
| `TrieSpec.InsertAt` | contact.java:46-54 | definition of insert along a lower-cased key: the creating walk, then the update at the node reached; its properties are the `TrieSpec.Insert*` rows |
| `TrieSpec.InsertName` | contact.java:46-54 | definition of `insert(name, phone, email)`: a contact with the name in its original case, stored along the lower-cased name |
| `TrieSpec.InsertIsReplace` | contact.java:46-54 | insert is the creating walk followed by one update at the node reached: mark it terminal and append the contact |
| `TrieSpec.InsertThenLookup` | contact.java:52-53 | after insert, the node at the key is terminal and its list is the old list with the new contact appended |
| `TrieSpec.AddContactContents` | contact.java:52-53 | at a node whose flag agrees with its list, appending a contact adds exactly that contact to its collection |
| `TrieSpec.InsertContents` | contact.java:46-54 | insert adds exactly one contact to the multiset of all contacts and keeps every contact stored before |
| `TrieSpec.InsertWellFormed` | contact.java:52-53 | insert keeps the invariant: flag set exactly when the list is non-empty, names agreeing with paths |
| `TrieSpec.Find` | contact.java:59-65 | definition of search along a lower-cased key: the empty list at a missing edge, otherwise the collection below the node reached; its meaning is `TrieSpec.FindIsFilter` |
| `TrieSpec.SearchPrefix` | contact.java:57-66 | definition of `search(prefix)`: `TrieSpec.Find` along the lower-cased prefix; its meaning is `TrieSpec.SearchIsFilter` |
| `TrieSpec.SearchFindsInserted` | contact.java:46-66 | after insert(name, phone, email), search(name) contains that contact, with the name in its original case and phone and email as given |
| `TrieSpec.SearchMissingEdge` | contact.java:59-62 | when some character of the lower-cased prefix has no child along the walk, search returns an empty list |
| `TrieSpec.SearchEmptyIsAll` | contact.java:57-83 | search("") returns exactly what displayAllContacts returns |
| `TrieSpec.SearchIgnoresCase` | contact.java:59 | searching with the lower-cased prefix gives the same list as the prefix itself |
| `TrieSpec.SearchAliceAnyCase` | contact.java:59 | search("ALICE") equals search("alice") |
| `TrieSpec.SearchMonotone` | contact.java:57-78 | if p1 is a prefix of p2, the multiset of search(p2) is contained in the multiset of search(p1) |
| `TrieSpec.PrefixesDiverge` | contact.java:74-76 | a name that continues a path with one character does not start with that path continued by another character |
| `TrieSpec.OwnAbovePrefix` | contact.java:71-73 | in a well-formed tree, no contact a node holds itself has a name starting with a strictly longer path |
| `TrieSpec.WithPrefixChildren` | contact.java:74-76 | filtering the children's collection by a longer key keeps only what the child on the key's next character holds |
| `TrieSpec.WithPrefixAtPath` | contact.java:69-78 | filtering a well-formed node's collection by the node's own path keeps all of it |
| `TrieSpec.WithPrefixOneChild` | contact.java:69-78 | filtering a well-formed node's collection by a key longer than its path keeps only the subtree on the key's next edge, or nothing when that edge is missing |
| `TrieSpec.FindOnChild` | contact.java:59-63 | through an existing edge, search along a key is search along the rest of the key from the child |
| `TrieSpec.FindMissingChild` | contact.java:60-61 | when the key's first edge is missing, search returns the empty list |
| `TrieSpec.FindIsFilter` | contact.java:57-78 | below a well-formed node, the search walk along a key followed by the collection returns exactly the node's collection filtered to the names starting with the path plus the key, in the same order |
| `TrieSpec.SearchIsFilter` | contact.java:57-83 | on a well-formed index, search(prefix) is exactly displayAllContacts() cut down to the contacts whose lower-cased name starts with the lower-cased prefix, in the same order |
| `TrieSpec.SearchSoundComplete` | contact.java:57-66 | on a well-formed index, a contact is in search(prefix) if and only if it is stored and its lower-cased name starts with the lower-cased prefix, and search returns every stored copy of it |
| `TrieSpec.SearchUnknownPrefix` | contact.java:57-66 | on a well-formed index, when no stored name starts with the prefix ignoring case, search returns the empty list, even where the walk succeeds |
| `TrieSpec.Strip` | contact.java:101-105 | definition of the update at a terminal end node: removeIf with `Contacts.Matches`, then the flag cleared when no contact is left |
| `TrieSpec.Prunes` | contact.java:106 | definition of the pruning test: as written, the stripped node has no children; corrected, it also has no contacts left (see "## Findings") |
| `TrieSpec.Cut` | contact.java:107 | definition of `prev.children.remove(prevChar)`: the parent without that one edge |
| `TrieSpec.Remove` | contact.java:86-113 | definition of delete along a lower-cased key, with the pruning test as a parameter; its properties are the `TrieSpec.Remove*` and `TrieSpec.Delete*` rows |
| `TrieSpec.DeleteName` | contact.java:86-113 | definition of `delete(name)` with the corrected pruning test |
| `TrieSpec.DeleteNameAsWritten` | contact.java:86-113 | definition of `delete(name)` with the pruning test as written |
| `TrieSpec.StripContents` | contact.java:101-105 | at a terminal node, removeIf and the flag update take out exactly the matching contacts |
| `TrieSpec.RemoveNotFound` | contact.java:91-95 | delete reports not found exactly when the walk hits a missing edge or ends at a non-terminal node, and then changes nothing |
| `TrieSpec.PrunedAt` | contact.java:106 | definition of whether a successful delete cuts an edge: the end node has a parent and the pruning test holds of the stripped node |
| `TrieSpec.RemoveShape` | contact.java:101-108 | a successful delete either writes back the stripped end node, or, when the pruning test holds and there is a parent, cuts the one edge from the parent |
| `TrieSpec.DeleteContents` | contact.java:101-108 | a successful delete (corrected pruning) removes exactly the contacts at the end node that match the name ignoring case, and no other contact |
| `TrieSpec.InPlaceContents` | contact.java:101-105 | writing back the stripped end node loses exactly the contacts that match the name ignoring case |
| `TrieSpec.PrunedContents` | contact.java:106-108 | under the corrected test, cutting the end node off its parent loses exactly the matching contacts, since the node keeps no contact and no child |
| `TrieSpec.CutWellFormed` | contact.java:107 | cutting an edge keeps a node well-formed |
| `TrieSpec.StripWellFormed` | contact.java:102-105 | after removeIf the flag is set exactly when contacts remain |
| `TrieSpec.UpdateAtLookupWellFormed` | contact.java:101-108 | writing back a well-formed update at the end of a successful walk keeps the tree well-formed |
| `TrieSpec.DeleteWellFormed` | contact.java:101-108 | delete keeps the invariant, under the pruning test as written and as corrected |
| `TrieSpec.LookupBelow` | contact.java:63 | one step below a node depends only on its children |
| `TrieSpec.DeleteLocal` | contact.java:101-108 | after a successful delete, paths off the key and below it lead where they did; every ancestor survives with flag and contacts unchanged (no cascading prune); the key leads to the stripped node or, once pruned, nowhere |
| `TrieSpec.DeleteInPlaceLocal` | contact.java:101-105 | the same, for a delete that writes back the stripped node |
| `TrieSpec.DeletePrunedLocal` | contact.java:106-108 | the same, for a delete that cuts the edge from the parent: only that edge disappears |
| `TrieSpec.DeleteTwiceNotFound` | contact.java:86-112 | when every contact at the end node matches the name, a second delete of that name reports not found |
| `TrieSpec.EndNodeAllMatch` | contact.java:102 | on a well-formed index where neither the name nor any stored name contains U+0130, every contact at the node the lower-cased name leads to equals the name ignoring case |
| `TrieSpec.DeleteTwiceNotFoundWithoutDottedI` | contact.java:86-112 | on such an index, a second delete of the same name reports not found |
| `PruneFinding.PruningTestsAgree` | contact.java:106-108 | if every contact at the end node matches the name, the pruning test as written and as corrected give the same delete |
| `PruneFinding.PruningSafeWithoutDottedI` | contact.java:102-108 | on a well-formed index where neither the name nor any stored name contains U+0130, delete as written equals delete corrected |
| `PruneFinding.CollectSingleChild` | contact.java:69-78 | a node with one child collects its own contacts, then that child's subtree |
| `PruneFinding.Keys` | contact.java:48 | "İ" and "i̇" lower-case to the same key "i̇" |
| `PruneFinding.TwoDottedIsInserted` | contact.java:46-54 | inserting "İ" and then "i̇" stores both contacts, in that order, at one node |
| `PruneFinding.TwoDottedIsContents` | contact.java:69-78 | that index's collection is both contacts, the first inserted first |
| `PruneFinding.AsWrittenPruneLosesContact` | contact.java:102-108 | as written, delete("İ") on that index reports deleted and leaves no contact at all, although "i̇" does not match "İ" ignoring case |
| `PruneFinding.CorrectedPruneKeepsContact` | contact.java:102-108 | with the corrected test, the same delete keeps exactly the "i̇" contact |
| `ContactTrie.Trie.constructor` | contact.java:41-43 | a new index has a fresh root node and holds no contacts |
| `ContactTrie.Trie.Insert` | contact.java:46-54 | the walk-and-create loop followed by the update equals the reference insert; the invariant is kept; exactly the new contact is added |
| `ContactTrie.Trie.Search` | contact.java:57-66 | the walk loop returns the empty list at the first missing edge, otherwise the collection at the node reached, as the reference search says; on a valid index that is every stored contact whose lower-cased name starts with the lower-cased prefix, in display order |
| `ContactTrie.Trie.DisplayAllContacts` | contact.java:81-83 | returns collectAllContacts at the root, which is search("") (second ensures); what that listing holds is stated by `TrieNodes.ContentsAroundChild`, `TrieNodes.CollectUnderPath` and `TrieSpec.SearchIsFilter` |
| `ContactTrie.Trie.Delete` | contact.java:86-113 | the walk loop tracking the parent and the last edge character, followed by the update, equals the reference delete (corrected pruning); the invariant is kept; not found changes nothing |

## Findings

| source | as written | input that shows it | evidently intended | confidence | as-written member | corrected member |
|---|---|---|---|---|---|---|
| contact.java:106-108 | a childless end node is cut off its parent even when contacts that did not match the deleted name remain in it | insert("İ", …), then insert("i̇", …) where "i̇" is `i` followed by U+0307, then delete("İ"). Both names lower-case to "i̇" and share one node. Only the first equals "İ" ignoring case. The node still holding the second contact is cut off, and that contact is lost | cut the edge only when the node has no children and no contacts left, as the flag update just before it assumes | medium, not executed | `PruneFinding.AsWrittenPruneLosesContact` | `TrieSpec.DeleteContents` |

`TrieSpec.Remove` takes the pruning test as a parameter (`Prunes`).
`TrieSpec.DeleteNameAsWritten` models the code as written. `TrieSpec.DeleteName`
and `ContactTrie.Trie.Delete` use the corrected test. When case folding keeps
lengths, which the model proves for every name without U+0130, the two are the
same operation (`PruneFinding.PruningSafeWithoutDottedI`). So the correction
changes nothing for ASCII names.

## Left out

- The interactive driver `ContactManagementSystem.main` (contact.java:117-188) is left out. It is console I/O and a menu loop.
- The three messages `delete` prints are left out. Delete returns an `Outcome` (`Deleted` or `NotFound`) instead.
- `Contact.toString` (contact.java:31-34) is left out. It is display formatting that the index never uses.
- Java case mapping is modelled only for ASCII letters and U+0130, in a non-Turkic locale. Other Unicode case mappings are not modelled. Neither is the Turkish locale, where U+0130 lower-cases to a single `i`.
- Java `char` is a UTF-16 code unit. Dafny `char` is a Unicode scalar value, so surrogate pairs are not modelled.
- Java `String` arguments may be null: `insert`, `search` and `delete` then throw a `NullPointerException` at contact.java:48, 59 and 91, and `insert` stores a null phone or email as given. Dafny strings are never null, so none of this is modelled; the interactive driver never passes null.
- `HashMap` hashing and iteration order are not modelled. Children are visited in ascending order of edge character. Every property that does not depend on order is stated as a multiset.
- Sharing of `TrieNode` and `Contact` objects is not modelled. Nodes are values exclusively owned by their parent. An in-place update is a write-back at the walked path. Nothing in the source aliases a node, and no code changes a `Contact` after it is built, although its fields are neither `final` nor private and search hands out the stored objects themselves.
- The throw-away `new TrieNode()` that `putIfAbsent` builds even when the child exists (contact.java:49) has no observable effect and is not modelled.
- ContactTrie.Trie.Delete: follows the corrected pruning test, not the one at contact.java:106 (see "## Findings"). The as-written behaviour is `TrieSpec.DeleteNameAsWritten`.
