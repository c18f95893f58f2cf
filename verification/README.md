# Persistent hash dict (HAMT) of the Gleam standard library's JavaScript runtime

This project models the immutable `Dict` of `priv/static/web.mjs` and the hash
array mapped trie (HAMT) behind it, and proves what the code promises about
them in Dafny.

A dict is a root node and a size. The trie has four node kinds:

- an entry (`Nodes.Leaf`);
- an index node: a 32-bit bitmap plus one child per set bit, in chunk order;
- an array node: 32 slots plus the count of occupied ones;
- a collision node: entries whose keys share a full 32-bit hash.

Each level consumes one 5-bit chunk of the key's hash. Index nodes are
promoted to array nodes when a 17th child arrives. Array nodes are demoted to
index nodes when a slot empties at 8 occupied slots.

The model is functional. Nodes are an immutable datatype with `bv32` bitmaps
and hashes. `find`, `assoc` and `without` are recursive functions. The loops
of the source are methods with their loop invariants: `bitcount`,
`collisionIndexOf`, `spliceIn`/`spliceOut`, the promotion loop, the two
demotion loops, `forEach` and `hashString`.

The abstract view of a node is `Nodes.Contents`, a `map<K, V>`. The trie
invariant is `Nodes.Valid`:

- an index node has popcount(bitmap) children, at most 16;
- an array node has 32 slots, `size` of them occupied, at least 8;
- a collision node has at least one entry, all with its hash, keys distinct;
- every key lies below the child its hash chunk selects.

Every operation is stated against the map. Lookup is map lookup, insertion is
map update, removal is map removal. The `addedLeaf` flag, the returned size
and the "same node back when nothing changed" results are stated exactly.

Keys' `getHash` is a function parameter `H: K -> bv32`, and values' is
`HV: V -> bv32`. `hashString` and `hashMerge` are modelled on their own, in
JavaScript number semantics: `Math.imul`, `| 0` and the bitwise operators cut
a number to a signed 32-bit integer.

In three places the code behaves otherwise than one might expect. The model
follows the code in each:

- Removing a key from an index node never collapses a single remaining entry
  into its parent. Only the removal of the last child yields nothing
  (web.mjs:812-813, 822-823).
- A collision node shrunk to one entry stays a collision node
  (web.mjs:838-839).
- `findCollision` does not compare the node's stored hash with the probe's
  (web.mjs:715-721).

## Model

| member | source | states |
|---|---|---|
| `Hashing.HashStringLoop` | priv/static/web.mjs:323-330 | the loop computes the fold of `Math.imul(31, h) + code \| 0` over the code units, starting from 0 |
| `Hashing.HashStringPoly` | priv/static/web.mjs:323-330 | `hashString(s)` equals the exact integer polynomial `s[0]*31^(n-1) + ... + s[n-1]`, cut to a signed 32-bit integer: the per-step cuts lose nothing modulo 2^32 |
| `Hashing.HashMerge` | priv/static/web.mjs:320-322 | `hashMerge` returns a signed 32-bit integer |
| `Hashing.MergeInverse` | priv/static/web.mjs:320-322 | for a known first hash `a`, `hashMerge(a, b)` determines `b` modulo 2^32: xor with `a`, then subtracting the other terms, recovers it |
| `Hashing.MergeInjective` | priv/static/web.mjs:320-322 | for a fixed first hash, two second hashes merge to the same value exactly when they agree in their low 32 bits |
| `Popcount.BitCount` | priv/static/web.mjs:429-436 | the SWAR `bitcount`, with JavaScript's sign-copying `>>`, returns the number of set bits of any 32-bit word, negative ones included |
| `Popcount.IndexAsWritten` | priv/static/web.mjs:437-439 | `index(bitmap, bit)` as written returns the number of set bits of `bitmap` below `bit` |
| `Bits.IndexIsRank` | priv/static/web.mjs:426-439 | for `bit = bitpos(...) = 1 << c`, `index(bitmap, bit)` is the rank of chunk `c`: the number of set bits below position `c` |
| `Bits.BitposBits` | priv/static/web.mjs:423-428 | `bitpos(hash, shift)` has exactly one bit set, the one at `mask(hash, shift)` |
| `Arrays.CloneAndSet` | priv/static/web.mjs:440-448 | the copy holds `val` at `at` and the old element everywhere else; `at` one past the end appends |
| `Arrays.SpliceIn` | priv/static/web.mjs:449-462 | one element longer; `val` at `at`; earlier elements in place, later ones shifted up by one |
| `Arrays.SpliceOut` | priv/static/web.mjs:463-476 | one element shorter; earlier elements in place, later ones shifted down by one |
| `Arrays.SpliceInLoop` | priv/static/web.mjs:449-462 | the two copy loops of `spliceIn` build the array described for `SpliceIn`, element by element |
| `Arrays.SpliceOutLoop` | priv/static/web.mjs:463-476 | the two copy loops of `spliceOut` skip exactly position `at` |
| `Arrays.SpliceOutIn` | priv/static/web.mjs:449-476 | removing what `spliceIn` inserted gives the original array back |
| `Arrays.SpliceInOut` | priv/static/web.mjs:449-476 | re-inserting the element `spliceOut` removed gives the original array back |
| `Collision.IndexOf` | priv/static/web.mjs:667-675 | -1 exactly when no entry has the key; otherwise the first position holding the key |
| `Collision.IndexOfLoop` | priv/static/web.mjs:667-675 | the search loop returns the first position of the key, or -1 |
| `Collision.EntriesLookup` | priv/static/web.mjs:667-675 | in an entry list with distinct keys, the entry `collisionIndexOf` finds carries the key's value in the list's map, and -1 means the key is absent |
| `Collision.EntriesRemove` | priv/static/web.mjs:841-845 | splicing an entry out of a list with distinct keys removes exactly its key from the map |
| `Find.Find` | priv/static/web.mjs:676-685 | below a valid node, `find` returns an entry exactly when the key is in the node's map, and then the entry holds the key's value |
| `Find.FindArray` | priv/static/web.mjs:686-699 | the same, for an array node probed at slot `mask(hash, shift)` |
| `Find.FindIndex` | priv/static/web.mjs:700-714 | the same, for an index node: a clear bit means the key is absent, a set bit leads to the child at `index(bitmap, bit)` |
| `Find.FindCollision` | priv/static/web.mjs:715-721 | the same, for a collision node, without consulting the node's hash |
| `Assoc.Assoc` | priv/static/web.mjs:499-508 | inserting below a valid node gives a valid node whose map is the old map updated at the key; `addedLeaf` is raised exactly when the key was new; a key already bound to the value gives back the same node |
| `Assoc.AssocArray` | priv/static/web.mjs:509-555 | the same for an array node: an empty slot is filled and `size` grows by one, an occupied slot is rebuilt, an unchanged child gives back the node |
| `Assoc.AssocIndexKid` | priv/static/web.mjs:559-596 | the same for an index node whose bit for the key's chunk is set: the child at `index(bitmap, bit)` is replaced |
| `Assoc.AssocIndexGap` | priv/static/web.mjs:597-630 | the same for a clear bit: below 16 children a leaf is spliced in and the bit set; at 16 the node becomes an array node of size n+1 |
| `Assoc.AssocChild` | priv/static/web.mjs:540-554 | the step shared by `assocArray` and `assocIndex`: a leaf of the key keeps or replaces its value without raising `addedLeaf`; a leaf of another key becomes `createNode` of both and raises it; a deeper node gets the key inserted |
| `Assoc.AssocCollision` | priv/static/web.mjs:632-666 | with the node's hash the entry is replaced in place or appended; with another hash the node is wrapped in a one-child index node at `bitpos(node.hash, shift)` and the key inserted there |
| `Assoc.CreateNode` | priv/static/web.mjs:477-498 | two distinct keys whose hashes agree on the chunks above `shift` give a valid node holding exactly both; equal full hashes give a collision node |
| `Assoc.CollisionPair` | priv/static/web.mjs:479-488 | the two-entry collision node `createNode` builds for equal hashes is valid and holds both keys |
| `Assoc.CollisionSet` | priv/static/web.mjs:635-644 | replacing the value of a key present in a collision node updates the map and leaves `addedLeaf` down |
| `Assoc.CollisionAppend` | priv/static/web.mjs:646-652 | appending an absent key to a collision node adds it to the map and raises `addedLeaf` |
| `Assoc.Wrap` | priv/static/web.mjs:654-665 | a collision node wrapped in a one-child index node at `bitpos(node.hash, shift)` is a valid node with the same map |
| `Assoc.IndexGrow` | priv/static/web.mjs:598-616 | promotion: an index node with 16 children, spread over 32 slots with the new child at `mask(hash, shift)`, is a valid array node of size 17 with the old map plus the key |
| `Layout.SpreadLoop` | priv/static/web.mjs:600-611 | the promotion loop, walking the bitmap one `>>> 1` at a time and taking `root.array[j++]` for each set bit, fills exactly the slots of the spread index node, with the new child at `jdx` |
| `Layout.SpreadOccupied` | priv/static/web.mjs:598-616 | the spread of an index node occupies one slot per set bit, so the promoted node's `size` of n+1 counts its occupied slots |
| `Edits.Promote` | priv/static/web.mjs:598-616 | the promoted array node is valid and has the children of the index node, plus the new one at the key's chunk |
| `Layout.PackLoop` | priv/static/web.mjs:750-779 | the two demotion loops, copying the occupied slots below and above `idx` and setting a bit for each, build the packed index node |
| `Edits.Demote` | priv/static/web.mjs:749-780 | the packed index node is valid and has the children of the array node, less the one at the removed chunk |
| `Without.Without` | priv/static/web.mjs:722-731 | removing below a valid node gives nothing exactly when the key was the node's only key; otherwise a valid node whose map is the old map without the key; an absent key gives back the same node |
| `Without.WithoutArray` | priv/static/web.mjs:732-792 | the same for an array node: an emptied slot drops `size` by one, or demotes the node at 8 occupied slots; a changed child is set in its slot |
| `Without.WithoutIndex` | priv/static/web.mjs:793-832 | the same for an index node: a changed child is replaced; a removed child is spliced out and its bit cleared; removing the last child leaves nothing |
| `Without.WithoutChild` | priv/static/web.mjs:739-748 | the step shared by `withoutArray` and `withoutIndex`: a leaf of the key goes, a leaf of another key stays, a deeper node loses the key |
| `Without.WithoutCollision` | priv/static/web.mjs:833-846 | the same for a collision node: the key's entry is spliced out; removing the sole entry leaves nothing |
| `Without.ArrayShrink` | priv/static/web.mjs:781-785 | above 8 occupied slots, emptying the key's slot gives a valid array node with `size` one less and the key gone |
| `Without.ArrayDemote` | priv/static/web.mjs:749-780 | at 8 occupied slots, packing the other slots gives a valid index node with the key gone |
| `Without.IndexPrune` | priv/static/web.mjs:815-829 | `bitmap ^ bit` with the child spliced out is a valid, non-empty index node with the key gone |
| `Without.IndexLast` | priv/static/web.mjs:812-813 | when the emptied child was the only one, the key was the node's only key |
| `Without.CollisionLast` | priv/static/web.mjs:838-839 | a one-entry collision node holding the key held only that key |
| `Walk.ForEach` | priv/static/web.mjs:847-864 | the traversal loop, skipping empty slots, reporting entries and recursing into other nodes, visits the entries in walk order |
| `Walk.WalkSound` | priv/static/web.mjs:847-864 | the walk of a valid node lists its map, with no key twice |
| `Walk.Visits` | priv/static/web.mjs:847-864 | `fn` is called once per entry of the map: every visited pair is in the map, every map entry is visited, and there are as many visits as keys |
| `Sums.TotalOrder` | priv/static/web.mjs:978-984 | the wrapping sum of per-entry terms is the same for any two lists with distinct keys and the same map |
| `Dicts.New` | priv/static/web.mjs:892-894 | `Dict.new()` stands for the empty map, with size 0 |
| `Dicts.Get` | priv/static/web.mjs:909-918 | `get(key, notFound)` returns the key's value when the key is in the map, and `notFound` otherwise |
| `Dicts.Has` | priv/static/web.mjs:954-959 | `has(key)` holds exactly when the key is in the map |
| `Dicts.Set` | priv/static/web.mjs:924-932 | `set` keeps the invariant, binds the key to the value, grows `size` by one exactly when the key was new, and returns the same dict when the key already had the value |
| `Dicts.Delete` | priv/static/web.mjs:937-949 | `delete` keeps the invariant and removes the key; `size` drops by one exactly when the key was present; an absent key gives back the same dict; removing the last key gives `Dict.new()` |
| `Dicts.Entries` | priv/static/web.mjs:963-970 | `entries()` lists each entry of the map exactly once, `size` of them |
| `Dicts.HashCode` | priv/static/web.mjs:978-984 | `hashCode()` is a signed 32-bit integer equal, modulo 2^32, to the sum of `hashMerge(hash(v), hash(k))` over the visited entries |
| `Dicts.HashCodeOfMap` | priv/static/web.mjs:978-984 | dicts standing for the same map have the same `hashCode`, however their tries are shaped |
| `Dicts.AllFound` | priv/static/web.mjs:993-999 | the probing walk of `equals` succeeds exactly when every visited entry is found in the other dict with its value |
| `Dicts.EqualsMap` | priv/static/web.mjs:989-1006 | `equals` holds exactly when the two dicts stand for the same map |
| `Dicts.FromEntries` | priv/static/web.mjs:871-891 | folding `set` over pairs from `Dict.new()` gives a dict whose map is the pairs', a later pair winning |
| `Dicts.MapGet` | priv/static/web.mjs:1087-1093 | `map_get` is `Ok` of the key's value when the key is in the map, and `Error(Nil)` otherwise |
| `Dicts.GetAfterSet` | priv/static/web.mjs:909-932 | after `set(k, v)`, `get(k)` returns `v` and every other key reads as before |
| `Dicts.GetAfterDelete` | priv/static/web.mjs:909-959 | after `delete(k)`, `has(k)` is false and every other key reads as before |
| `Dicts.SetTwice` | priv/static/web.mjs:924-932 | setting the same key to the same value twice gives the dict the first `set` gave |
| `Dicts.DeleteTwice` | priv/static/web.mjs:937-949 | deleting a key twice gives the dict the first `delete` gave |
| `Dicts.SetThenDelete` | priv/static/web.mjs:924-1006 | inserting a fresh key and deleting it again gives a dict of the same size that `equals` the first |
| `Dicts.SameEntries` | priv/static/web.mjs:978-1006 | dicts with the same map are `equals` both ways and have the same `hashCode` |

## Left out

- Find.Find: keys are compared with Dafny's `==`, not with `isEqual` (web.mjs:199-227). `isEqual` dispatches on prototypes and runtime classes.
- Nodes.Valid: `getHash` is an arbitrary total function `H`, so a key always has one hash, consistent with key equality. The source breaks this in three ways. `0` and `-0` are equal but `hashNumber` hashes them differently (web.mjs:331-336). `NaN` is not equal to itself (web.mjs:204-207). `hashObject` returns a user `hashCode` unchanged even when it is not a 32-bit integer (web.mjs:344-347). Two such hashes that differ only above bit 31 make `createNode` and `assoc` recurse past the last level without end (web.mjs:479).
- Assoc.Assoc: the "value unchanged" tests use `===` (web.mjs:522, 574, 637). They are modelled with Dafny's `==` on values.
- Dicts.Set: "returns the same dict" is modelled as returning an equal value, since datatypes have no object identity. The same holds for the node-identity tests `n === node` and `newRoot === this.root` (web.mjs:548, 563, 745, 802, 927-928, 941-943). The model returns the very same value on exactly those paths.
- Dicts.Get: returns a tagged value (`Found.Value` or `Found.Missing`) rather than the bare value or `notFound` (web.mjs:909-919). A stored value equal to the caller's `notFound` is thus told apart from a miss, which the source cannot do; `map_get` relies on the sentinel `NOT_FOUND` never being stored.
- Dicts.Equals: no `ensures` of its own. `Dicts.EqualsMap` states what it computes. The `instanceof Dict` test, the `isEqual` value comparison and the throw/catch early exit are not modelled (web.mjs:989-1005). The values are compared with `==`, and the probe's `!v` not-found value is modelled by the tag of `Found`.
- Dicts.HashCode: the result is the signed 32-bit value that `| 0` leaves, reached through the unsigned wrapping sum; the step-by-step `| 0` of the source agrees with it modulo 2^32.
- Hashing.HashMerge: `+` is exact integer addition. For the signed 32-bit hashes that `hashCode` passes in, the sum stays below 2^35, which doubles hold exactly. The model does not treat operands large enough for rounding to matter.
- Hashing.HashStringLoop: strings are sequences of UTF-16 code units (`charCodeAt`); the dict's keys take their hash from `H`, so `hashString` is modelled on its own.
- `hashNumber` and `hashBigInt` (web.mjs:306, 331-339) are not modelled: the first reinterprets a double's bits through a `DataView`, and the second hashes the decimal text of a big integer with `hashString`.
- `hashByReference` (web.mjs:305-319) is not modelled: it is a global mutable identity table.
- `hashObject` and `getHash`'s type dispatch (web.mjs:340-407) are not modelled: they are foreign calls into user `hashCode` methods. The parameter `H` stands for them.
- `Dict.forEach` with a callback (web.mjs:975-977) is modelled by the list of pairs the callback receives (`Walk.Walk`, `Dicts.Listing`); callbacks with effects are not.
- The URI parser `parse` and `to_string2` (web.mjs:2583-3409) is not part of this model.
