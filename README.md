# Sets and a spelling checker, modelled in Dafny

The repository has three sequential components. This project models each one and proves properties of the model:

- **AVLSet** (`avl_tree.dfy`, module `AVLTree`) is a binary search tree of linked nodes, each caching its height.
  - The rebalancing code is commented out in the source, so the live `add` is plain BST insertion with height upkeep.
  - The tree is the datatype `Tree` with a functional `AddTo`, and the class `AVLSet` holds the root.
  - Elements are `int`; the source is a template over any ordered `T`.
- **HashSet** (`hash_set.dfy`, module `ChainedHash`) is an array of buckets, each a chain of `(key, value)` nodes.
  - It doubles its capacity when the load factor passes 0.8, re-placing nodes by their stored key.
  - The class `HashSet` keeps the buckets as an `array<seq<HashNode<T>>>`.
  - Each linked chain becomes a sequence, in chain order.
  - The hash function is a parameter of type `T -> nat`.
- **WordChecker** (`word_checker.dfy`, module `Spelling`) answers dictionary membership and builds spelling suggestions.
  - Suggestions come from single edits: adjacent swaps, interior insertions, deletions, replacements, and splits into two words.
  - The dictionary is a `set<string>`.
  - Each loop method is proved equal to a recursive function listing the candidates in the order the source emits them.
  - Lemmas say what each of those functions contains.

## Model

| member | source | states |
|---|---|---|
| AVLTree.CreateNode | core/AVLSet.hpp:328-341 | a new node is a valid leaf holding only the element, with cached height 0 |
| AVLTree.NodeHeight | core/AVLSet.hpp:368-383 | `nodeHeight` as written, branch by branch; specified by NodeHeightRule |
| AVLTree.NodeHeightRule | core/AVLSet.hpp:368-383 | on children whose cached heights are right, `nodeHeight` is 0 for a leaf and otherwise 1 + the larger child height |
| AVLTree.HeightIsDepth | core/AVLSet.hpp:368-383 | when every cached height follows the rule, the cached height is the tree's depth (-1 for empty) |
| AVLTree.AddNode | core/AVLSet.hpp:177-204 | insertion below a node, with the new leaf's parent given the `nodeHeight` height; the result holds the old elements plus the new one |
| AVLTree.AddTo | core/AVLSet.hpp:165-174 | `add` on a possibly empty tree stores exactly the old elements plus the new one |
| AVLTree.AddNodePreservesBST | core/AVLSet.hpp:179-202 | routing right on `node < x` and left on `node > x` keeps the search-tree order |
| AVLTree.AddNodePreservesHeights | core/AVLSet.hpp:189-201 | recomputing `nodeHeight` on every ancestor keeps all cached heights right |
| AVLTree.AddPreservesValid | core/AVLSet.hpp:165-204 | `add` keeps order and heights, and adds exactly the element |
| AVLTree.AddNodeIdempotent | core/AVLSet.hpp:203-204 | below a node, adding a stored element returns the tree unchanged |
| AVLTree.AddIdempotent | core/AVLSet.hpp:165-204 | adding an element already present leaves the tree unchanged |
| AVLTree.ContainsR | core/AVLSet.hpp:233-251 | `containsR`, the binary search as written; specified by ContainsCorrect |
| AVLTree.ContainsIn | core/AVLSet.hpp:223-229 | `contains` as written: false on an empty tree, otherwise `containsR` from the root; specified by ContainsCorrect |
| AVLTree.ContainsCorrect | core/AVLSet.hpp:223-251 | on a search tree, `contains` is true iff the element is stored |
| AVLTree.AddThenContains | core/AVLSet.hpp:165-251 | after `add(x)`, `contains(x)` holds and `contains(y)` is unchanged for every y ≠ x |
| AVLTree.AddPreservesBST | core/AVLSet.hpp:165-204 | `add` on a search tree gives a search tree |
| AVLTree.CountIsCardinality | core/AVLSet.hpp:48-49 | the node count of a search tree is the number of distinct elements |
| AVLTree.SizeAfterAdd | core/AVLSet.hpp:48-49 | the size grows by one on a new element and stays the same on a present one |
| AVLTree.Preorder | core/AVLSet.hpp:279-286 | `preorderR` as written: node, left, right; specified by PreorderIsPermutation |
| AVLTree.Inorder | core/AVLSet.hpp:298-305 | `inorderR` as written: left, node, right; specified by InorderMembers, InorderSorted and SortedInorderIsBST |
| AVLTree.Postorder | core/AVLSet.hpp:317-324 | `postorderR` as written: left, right, node; specified by PostorderIsPermutation |
| AVLTree.InorderMembers | core/AVLSet.hpp:298-305 | the inorder visit sees exactly the stored elements, one visit per node |
| AVLTree.InorderSorted | core/AVLSet.hpp:298-305 | on a search tree, the inorder visit is strictly ascending and sees each element once |
| AVLTree.SortedInorderIsBST | core/AVLSet.hpp:298-305 | conversely, a tree whose inorder visit is strictly ascending is a search tree |
| AVLTree.PreorderIsPermutation | core/AVLSet.hpp:279-286 | preorder visits the same values as inorder, node first |
| AVLTree.PostorderIsPermutation | core/AVLSet.hpp:317-324 | postorder visits the same values as inorder, node last |
| AVLTree.CopyTree | core/AVLSet.hpp:345-353 | a copy has the original's values, shape and cached heights |
| AVLTree.LLRotation | core/AVLSet.hpp:431-439 | the single right rotation keeps the inorder sequence and the elements |
| AVLTree.RRRotation | core/AVLSet.hpp:442-450 | the single left rotation keeps the inorder sequence and the elements |
| AVLTree.LRRotation | core/AVLSet.hpp:453-460 | the left-right double rotation keeps the inorder sequence |
| AVLTree.RLRotation | core/AVLSet.hpp:463-470 | the right-left double rotation keeps the inorder sequence |
| AVLTree.RotationsPreserveBST | core/AVLSet.hpp:431-470 | each rotation applicable to a search tree gives a search tree |
| AVLTree.AddNodeAsWritten | core/AVLSet.hpp:177-204 | insertion with the hard-coded `height = 1` of lines 184 and 196; it holds the same elements |
| AVLTree.AddNodeAsWrittenSameShape | core/AVLSet.hpp:184 | the hard-coded height changes only cached heights: the as-written tree has the corrected tree's shape and values |
| AVLTree.HardCodedHeightRightIff | core/AVLSet.hpp:181-185 | when a leaf is hung on an empty right side, height 1 is right iff the other child is empty or a leaf |
| AVLTree.HardCodedHeightLeftIff | core/AVLSet.hpp:191-197 | when a leaf is hung on an empty left side, height 1 is right iff the other child is empty or a leaf |
| AVLTree.AddNodeAsWrittenBreaksHeights | core/AVLSet.hpp:184 | adding 2, 1, 0 gives the same tree as written and corrected; adding 3 then leaves, as written, a root with cached height 1, where the corrected insertion gives 2 |
| AVLTree.SizeAsWritten | core/AVLSet.hpp:255-258 | `size()` as written is always 0 |
| AVLTree.SizeAsWrittenIsWrong | core/AVLSet.hpp:257 | a one-element set reports size 0 |
| AVLTree.AddAll | core/AVLSet.hpp:165-174 | a sequence of `add` calls stores the old elements plus every added value |
| AVLTree.RightChainShape | core/AVLSet.hpp:177-204 | a chain of n right children holding lo, lo+1, … has inorder lo..lo+n-1 and height n-1 |
| AVLTree.RightChainGrows | core/AVLSet.hpp:179-189 | adding the next larger value to a right chain extends the chain by one node |
| AVLTree.AscendingAddAll | core/AVLSet.hpp:165-204 | adding 1, 2, …, n in order to an empty tree gives the right chain holding 1..n |
| AVLTree.AscendingInsertionsMakeAChain | core/AVLSet.hpp:177-218 | since nothing rebalances, adding 1..n in order gives a right chain of height n-1 |
| AVLTree.AVLSet.constructor | core/AVLSet.hpp:101-104 | a new set is empty and valid |
| AVLTree.AVLSet.Copy | core/AVLSet.hpp:115-122 | the copy holds the same tree as the original |
| AVLTree.AVLSet.Add | core/AVLSet.hpp:164-174 | the root becomes `AddTo` of the old root; membership gains the element; a present element changes nothing; validity is kept |
| AVLTree.AVLSet.Contains | core/AVLSet.hpp:222-229 | true iff the element is stored |
| AVLTree.AVLSet.Size | core/AVLSet.hpp:48-49 | the number of distinct stored elements |
| AVLTree.AVLSet.Height | core/AVLSet.hpp:261-267 | -1 exactly for the empty tree, otherwise the root's height, which is the depth |
| ChainedHash.BucketIndex | core/HashSet.hpp:166-167 | the bucket of a key lies within the capacity |
| ChainedHash.Append | core/HashSet.hpp:170-188 | the chain at the index gains the node at its tail, and every other bucket is untouched |
| ChainedHash.InFlatten | core/HashSet.hpp:83 | a node is among all stored nodes iff some bucket holds it |
| ChainedHash.FlattenEmpty | core/HashSet.hpp:108-109 | a table of empty buckets stores no node |
| ChainedHash.FlattenAppend | core/HashSet.hpp:170-188 | an append adds exactly the new node to the multiset of stored nodes |
| ChainedHash.FilterMembers | core/HashSet.hpp:286 | a new bucket gets exactly the scanned nodes whose key maps to it |
| ChainedHash.FlattenDistinct | core/HashSet.hpp:168-169 | with the placement invariant and distinct chains, no value is stored twice |
| ChainedHash.SizeIsElementCount | core/HashSet.hpp:212-215 | the node count equals the number of distinct stored values |
| ChainedHash.InChainIff | core/HashSet.hpp:196-208 | under the placement invariant, a chain holds a value iff the value is stored and hashes there |
| ChainedHash.ChainNonEmptyIff | core/HashSet.hpp:63-66 | a chain is non-empty iff some stored value hashes to it |
| ChainedHash.AppendAddsOne | core/HashSet.hpp:180-187 | an append adds one node, and the stored values gain the new value |
| ChainedHash.AppendMiss | core/HashSet.hpp:164-188 | on a miss, appending the node at its hash bucket keeps the placement invariant and distinct chains |
| ChainedHash.DistributeSnoc | core/HashSet.hpp:284-304 | scanning one more node appends it at the tail of bucket `key % newCapacity` |
| ChainedHash.DistributePreservesNodes | core/HashSet.hpp:279-307 | redistribution keeps the multiset of `(key, value)` nodes |
| ChainedHash.RehashKeepsNodes | core/HashSet.hpp:264-311 | a rehash keeps the stored nodes and the number of nodes |
| ChainedHash.RehashPlaced | core/HashSet.hpp:286 | after a rehash, every node lies in bucket `key % newCapacity`, by its stored key, with chains distinct |
| ChainedHash.KeyAsWritten | core/HashSet.hpp:166 | storing the unsigned hash in `int` gives a 32-bit signed value congruent to the hash |
| ChainedHash.TruncatedRem | core/HashSet.hpp:167 | C++ `%`: a remainder in [0, n) for a non-negative operand, in (-n, 0] for a negative one |
| ChainedHash.IndexAsWritten | core/HashSet.hpp:166-167 | the bucket index as written equals `BucketIndex` for every hash below 2^31 |
| ChainedHash.IndexAsWrittenCanBeNegative | core/HashSet.hpp:166-167 | hash 2^31 with capacity 10 gives index -8 as written, where the intended bucket is 8 |
| ChainedHash.HashSet.constructor | core/HashSet.hpp:95-110 | a new set has capacity 10, size 0, every bucket empty, and no elements |
| ChainedHash.HashSet.Copy | core/HashSet.hpp:120-127 | the copy has its own array, with the same hash function, capacity, size, buckets and elements |
| ChainedHash.HashSet.Add | core/HashSet.hpp:164-192 | a present element changes nothing; otherwise the node is appended to its bucket and the size grows by one; the capacity doubles with a rehash when 5·size > 4·capacity; validity includes the load bound |
| ChainedHash.HashSet.Contains | core/HashSet.hpp:195-208 | true iff the element was added |
| ChainedHash.HashSet.Size | core/HashSet.hpp:211-215 | the number of distinct stored elements |
| ChainedHash.HashSet.ElementsAtIndex | core/HashSet.hpp:63-66 | the length of chain `index`, or 0 outside the array; positive iff some stored element hashes there |
| ChainedHash.HashSet.IsElementAtIndex | core/HashSet.hpp:69-72 | true iff the index is in range and its chain holds the element, iff the element is stored and hashes there |
| ChainedHash.MoveChain | core/HashSet.hpp:283-305 | copying one old chain, node by node, into the new array gives the redistribution of the nodes scanned so far followed by that chain |
| ChainedHash.Redistribute | core/HashSet.hpp:276-307 | a fresh array of the new capacity holding the rehash of the old buckets, scanned in order |
| ChainedHash.HashSet.Resize | core/HashSet.hpp:263-311 | a fresh array of twice the capacity: the rehash of the old buckets in scan order, with nodes, size and elements kept |
| ChainedHash.NineInsertionsResizeOnce | core/HashSet.hpp:190-191 | with the identity hash, nine insertions into a new set trigger one resize, to capacity 20, after which the elements are exactly 0..8 |
| Spelling.AlphabetAsWritten | core/WordChecker.cpp:43 | the alphabet has 26 letters, has no 'Z', and has 'X' at positions 23 and 25 only |
| Spelling.Swapped | core/WordChecker.cpp:33-34 | a swap keeps the length and exchanges the letters at positions i and i+1 |
| Spelling.SwappedElsewhere | core/WordChecker.cpp:33-34 | a swap leaves every position other than i and i+1 unchanged |
| Spelling.Inserted | core/WordChecker.cpp:46-50 | an insertion is one letter longer than w and holds the new letter at position i |
| Spelling.InsertedRemoved | core/WordChecker.cpp:46-50 | removing position i from an insertion gives back w |
| Spelling.InsertedOverwrite | core/WordChecker.cpp:47-50 | overwriting the inserted letter of one insertion gives the insertion of the new letter, so one placeholder string serves every letter |
| Spelling.Deleted | core/WordChecker.cpp:64-65 | a deletion is one letter shorter than w |
| Spelling.DeletedLetters | core/WordChecker.cpp:64-65 | a deletion keeps the letters before i and moves each letter after i down one place |
| Spelling.Replaced | core/WordChecker.cpp:76-79 | a replacement keeps the length and holds the new letter at position i |
| Spelling.ReplacedElsewhere | core/WordChecker.cpp:76-79 | a replacement leaves every other position unchanged |
| Spelling.SplitAt | core/WordChecker.cpp:93-94 | a split is one character longer than w and has a space at position i |
| Spelling.SplitHalves | core/WordChecker.cpp:93-94 | the parts before and after the space are the two halves `w[..i]` and `w[i..]` |
| Spelling.SwapsSpec | core/WordChecker.cpp:29-38 | a string is a swap suggestion iff it is a word and equals w with some adjacent pair swapped |
| Spelling.InsertionsAtSound | core/WordChecker.cpp:48-53 | every string suggested at one position is a word and is w with some alphabet letter inserted there |
| Spelling.InsertionsAtComplete | core/WordChecker.cpp:48-53 | every insertion of an alphabet letter at that position that is a word is suggested there |
| Spelling.InsertionsAtSpec | core/WordChecker.cpp:48-53 | at one position, a string is suggested iff it is a word and is w with an alphabet letter inserted there |
| Spelling.InsertionsSound | core/WordChecker.cpp:41-55 | every insertion suggestion is a word and is w with an alphabet letter inserted at some interior position |
| Spelling.InsertionsComplete | core/WordChecker.cpp:41-55 | every insertion of an alphabet letter at an interior position that is a word is suggested |
| Spelling.InsertionsSpec | core/WordChecker.cpp:41-55 | a string is an insertion suggestion iff it is a word and is w with an alphabet letter inserted at an interior position 1..\|w\|-1 |
| Spelling.DeletionsSpec | core/WordChecker.cpp:58-69 | a string is a deletion suggestion iff it is a word and is w minus a position not followed by the same letter |
| Spelling.DeletedRun | core/WordChecker.cpp:62-63 | deleting either of two equal neighbours gives the same string |
| Spelling.DeletionAtRunEnd | core/WordChecker.cpp:62-63 | every deletion equals the deletion at a position that is not skipped |
| Spelling.DeletionsComplete | core/WordChecker.cpp:58-69 | skipping repeated letters loses nothing: every deletion that is a word is suggested |
| Spelling.ReplacementsAtSound | core/WordChecker.cpp:77-82 | every string suggested at one position is a word and is w with that position replaced by some alphabet letter |
| Spelling.ReplacementsAtComplete | core/WordChecker.cpp:77-82 | every replacement at that position by an alphabet letter that is a word is suggested there |
| Spelling.ReplacementsAtSpec | core/WordChecker.cpp:77-82 | at one position, a string is suggested iff it is a word and is w with that position replaced by an alphabet letter |
| Spelling.ReplacementsSound | core/WordChecker.cpp:71-84 | every replacement suggestion is a word and is w with some position replaced by an alphabet letter |
| Spelling.ReplacementsComplete | core/WordChecker.cpp:71-84 | every replacement of a position by an alphabet letter that is a word is suggested |
| Spelling.ReplacementsSpec | core/WordChecker.cpp:71-84 | a string is a replacement suggestion iff it is a word and is w with one position replaced by an alphabet letter |
| Spelling.SplitsSpec | core/WordChecker.cpp:86-98 | a string is a split suggestion iff it is w with a space at some 1 ≤ i < \|w\| and both halves are words |
| Spelling.SuggestionsAreWords | core/WordChecker.cpp:35 | every suggestion is a dictionary word, or a split whose two halves are words |
| Spelling.InsertedXTwice | core/WordChecker.cpp:43-53 | an 'X' insertion that is a word is suggested twice at its position: no deduplication |
| Spelling.InsertedLetters | core/WordChecker.cpp:46-50 | every letter of an insertion is a letter of w or the inserted letter |
| Spelling.ReplacedLetters | core/WordChecker.cpp:76-79 | every letter of a replacement is a letter of w or the new letter |
| Spelling.CandidateLetters | core/WordChecker.cpp:41-84 | insertion and replacement suggestions use only letters of the word and of the alphabet |
| Spelling.NoZ | core/WordChecker.cpp:43 | for a word without 'Z', no insertion or replacement suggestion contains 'Z' |
| Spelling.InsertionExample | core/WordChecker.cpp:41-55 | the letters are upper case: "CT" yields "CAT" from an upper-case dictionary, and "ct" never yields "cat" |
| Spelling.WordChecker.constructor | core/WordChecker.cpp:6-9 | the checker holds the given dictionary, and its alphabet is the literal of lines 43 and 73 |
| Spelling.WordChecker.WordExists | core/WordChecker.cpp:12-15 | true iff the dictionary holds the word |
| Spelling.WordChecker.FindSuggestions | core/WordChecker.cpp:18-27 | swaps, insertions, deletions, replacements and splits concatenated in that order, with no deduplication |
| Spelling.WordChecker.SwapAdjacent | core/WordChecker.cpp:29-38 | appends the swap candidates for i = 0..\|w\|-2 in order, each iff it is a word |
| Spelling.WordChecker.AddChars | core/WordChecker.cpp:41-55 | appends, for each interior position and then each alphabet letter, the insertion iff it is a word |
| Spelling.WordChecker.InsertAtPosition | core/WordChecker.cpp:46-53 | appends, for each alphabet letter in order, the insertion of that letter at i iff it is a word |
| Spelling.WordChecker.DelEach | core/WordChecker.cpp:58-69 | appends the deletion at each position not followed by the same letter, iff it is a word |
| Spelling.WordChecker.RepChar | core/WordChecker.cpp:71-84 | appends, for each position and then each alphabet letter, the replacement iff it is a word |
| Spelling.WordChecker.ReplaceAtPosition | core/WordChecker.cpp:76-82 | appends, for each alphabet letter in order, the replacement of position i by that letter iff it is a word |
| Spelling.WordChecker.SplitWord | core/WordChecker.cpp:86-98 | appends w with a space at each interior position whose two halves are both words |

## Left out

- Memory management is not modelled: destructors, `removeAll`, `deleteAll`, and the allocation-failure handlers in `createNode`, `resize` and `copyAll`. Dafny is garbage collected and has no allocation failure.
- Move constructors and move assignments are left out. Each is a pointer swap, some with uninitialised destinations.
- The copy-assignment operators are left out. Each appears only as the copy it performs.
- `isImplemented` is a constant flag and is left out.
- The commented-out balance dispatch (`checkBalance`, `balanceVal`, `balance`) is left out, because it is dead and broken as written. No AVL balance invariant is claimed for `add`.
- The rotations are modelled only as standalone functions on values, because the source never calls them. Like the source, they leave cached heights unchanged.
- Visitors passed through `std::function` become traversal functions that return the visited sequence.
- The abstract `Set` base class and `core/WordChecker.hpp` are not part of this model. They hold declarations only.
- Hash functions with side effects are not modelled.
- AVLTree.CopyTree: models the intended deep copy. As written, `copy` assigns to a by-value pointer, so the copy constructor leaves `root` unset. That behaviour is undefined and cannot be modelled on values.
- AVLTree.AVLSet.Add: elements are unbounded `int`, not a template parameter `T` with `<` and `>`.
- ChainedHash.HashSet.Add: the load check `double(tableSize)/capacity > 0.8` is modelled as the exact integer test `5*tableSize > 4*capacity`.
- ChainedHash.HashSet.Add: keys are the unbounded `nat` hash. The negative-index case is covered only under "Findings".
- ChainedHash.HashSet.Resize: does not model the overflow of `capacity*2` in `int`.
- ChainedHash.HashSet.Copy: models the intended deep copy, which keeps the hash function. As written, the copy constructor sets the hash function to null. Also, `copyAll` allocates the bucket array without clearing it and never stores into it: each copied node goes to a local pointer that is never linked. So the copy's bucket pointers are never initialised, every copied node is lost, and using the copy is undefined.
- ChainedHash.HashSet.ElementsAtIndex: follows the doc comment and returns 0 outside the array. The code has no bounds check, and reading outside the array is undefined.
- ChainedHash.HashSet.IsElementAtIndex: follows the doc comment and returns false outside the array. The code has no bounds check.
- The alphabet literal that `addChars` and `repChar` each declare is the checker's constant `alphabet`, which the constructor sets to that literal (`ALPHABET`).
- The inner loops of `addChars` and `repChar`, and the scan of one chain in `resize`, are separate methods (`InsertAtPosition`, `ReplaceAtPosition`, `MoveChain`), each proved against the same specification function as the loop it came from.
- Spelling.WordChecker.SwapAdjacent: requires a non-empty word. For the empty word, `word.size()-1` wraps around and the loop reads past the end.
- Spelling.WordChecker.FindSuggestions: requires a non-empty word, for the same reason as SwapAdjacent.
- Spelling.WordChecker.DelEach: reading `word[i+1]` at the last position gives the terminating null character in C++. The model guards that read instead, which gives the same result.
- The dictionary is modelled as a set of strings. Characters are Dafny `char`, with no encoding.

## Findings

| source | as written | input that shows it | evidently intended | confidence | as-written member | corrected member |
|---|---|---|---|---|---|---|
| core/AVLSet.hpp:184 | a leaf hung on a node sets that node's height to 1, whatever its other child | add 2, 1, 0, then 3: the root's cached height becomes 1, though its left subtree has height 1 | the height from `nodeHeight`, as on the recursive path at lines 189 and 201 | not executed | AVLTree.AddNodeAsWritten | AVLTree.AddNode |
| core/AVLSet.hpp:257 | `size()` returns 0 | one `add` on an empty set, then `size()` returns 0 | the number of stored elements, per the doc comment at lines 48-49 | not executed | AVLTree.SizeAsWritten | AVLTree.AVLSet.Size |
| core/HashSet.hpp:166-167 | the unsigned hash is stored in a signed `int`, and `key % capacity` truncates toward zero | hash 2^31 with capacity 10: the index is -8, outside the array | the bucket `hash % capacity`, in [0, capacity) | not executed | ChainedHash.IndexAsWritten | ChainedHash.BucketIndex |
