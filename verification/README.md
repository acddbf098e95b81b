# FixedsizeForgetfulHashSet, modelled in Dafny

LimeWire's `FixedsizeForgetfulHashSet` is a set with a fixed maximum size.
When a new element arrives and the set is full, the set forgets its oldest
element. The class documentation calls the replacement policy FIFO, and the
model evicts by insertion time. Whether re-adding a present element refreshes
its place is decided by the backing map's `put`, whose code is not part of this
model. Following the FIFO wording, the model assumes it does not.

The Java class delegates everything to a `FixedsizeForgetfulHashMap` whose
every value is one shared `PRESENT` marker. That map's source is not part of
this model. Because the values carry no information, the map is represented by
its keys in insertion order, oldest first. The project has two modules:

- `ForgetfulKeys` (`forgetful_keys.dfy`) holds the map's observable contract
  over that key sequence, as pure functions:
  - `Put` adds a key, evicting the oldest key when the map is full.
  - `Without` removes a key.
  - `AddAll` applies a series of puts.
  - Lemmas state what these functions guarantee: eviction, ordering, the
    bound and distinctness.
- `Collection` (`fixedsize_forgetful_hash_set.dfy`) holds the class
  `FixedsizeForgetfulHashSet`. It has a `const capacity` and a mutable field
  `elements: seq<E>` that stands for the backing map's keys. Its methods update
  that field under `modifies this`. Its object invariant `Valid()` says:
  - the capacity is positive;
  - the size never exceeds the capacity;
  - there are no duplicates.

The model iterates oldest first. The iterator's doc comment says "no
particular order", but the code relies on oldest-first order in two places:
`removeLRUEntry` removes the first element the iterator yields, and the
documented example prints the set in that order. The model follows the code.

## Model

| member | source | states |
|---|---|---|
| Collection.FixedsizeForgetfulHashSet.constructor | components/collection/src/main/java/org/limewire/collection/FixedsizeForgetfulHashSet.java:53-58 | a new set is empty, valid, and has the given size as its capacity |
| Collection.FixedsizeForgetfulHashSet.IsFull | components/collection/src/main/java/org/limewire/collection/FixedsizeForgetfulHashSet.java:74-83 | full exactly when the size equals the capacity |
| Collection.FixedsizeForgetfulHashSet.RemoveLRUEntry | components/collection/src/main/java/org/limewire/collection/FixedsizeForgetfulHashSet.java:85-98 | on an empty set: returns None and changes nothing; otherwise returns the oldest element, removes it and keeps the rest in order (size drops by one) |
| Collection.FixedsizeForgetfulHashSet.Iterator | components/collection/src/main/java/org/limewire/collection/FixedsizeForgetfulHashSet.java:100-110 | iteration yields each element exactly once, and its length is the size |
| Collection.FixedsizeForgetfulHashSet.Size | components/collection/src/main/java/org/limewire/collection/FixedsizeForgetfulHashSet.java:112-118 | the size never exceeds the capacity |
| Collection.FixedsizeForgetfulHashSet.IsEmpty | components/collection/src/main/java/org/limewire/collection/FixedsizeForgetfulHashSet.java:120-126 | empty exactly when iteration yields nothing; an empty set is never full |
| Collection.FixedsizeForgetfulHashSet.Contains | components/collection/src/main/java/org/limewire/collection/FixedsizeForgetfulHashSet.java:128-138 | membership agrees with iteration; a set with a member is not empty |
| Collection.FixedsizeForgetfulHashSet.Add | components/collection/src/main/java/org/limewire/collection/FixedsizeForgetfulHashSet.java:140-151 | returns true exactly when `o` was absent; afterwards `o` is a member; a present `o` leaves contents and order unchanged; a new `o` is appended, after dropping the oldest element if the set was full; the invariant (bound, no duplicates) is kept |
| Collection.FixedsizeForgetfulHashSet.Remove | components/collection/src/main/java/org/limewire/collection/FixedsizeForgetfulHashSet.java:153-162 | returns true exactly when `o` was a member; afterwards `o` is absent; a present `o` is cut out at its position, the others keep their relative order, and the size drops by one |
| Collection.FixedsizeForgetfulHashSet.Clear | components/collection/src/main/java/org/limewire/collection/FixedsizeForgetfulHashSet.java:164-170 | the set is empty and valid; the capacity is a constant and stays |
| Collection.FixedsizeForgetfulHashSet.Clone | components/collection/src/main/java/org/limewire/collection/FixedsizeForgetfulHashSet.java:172-188 | returns a freshly allocated set with the same capacity and the same elements in the same order |
| Collection.CloneIsIndependent | components/collection/src/main/java/org/limewire/collection/FixedsizeForgetfulHashSet.java:172-188 | after a clone, an add to the original leaves the clone as a copy of the original's old state, and a removal from the clone leaves the original as it was |
| Collection.WorkedExample | components/collection/src/main/java/org/limewire/collection/FixedsizeForgetfulHashSet.java:17-38 | for any five distinct elements Abby, Bob, Chris, Dan and Eric in a set of capacity 4: the first add of Abby returns true and leaves [Abby]; the second returns false and leaves [Abby]; adding Abby, Abby, Bob, Bob, Chris, Dan gives [Abby, Bob, Chris, Dan], which is full; adding Eric then gives [Bob, Chris, Dan, Eric] |
| Collection.WorkedExampleNames | components/collection/src/main/java/org/limewire/collection/FixedsizeForgetfulHashSet.java:17-38 | the same outcome with the documentation's own strings "Abby", "Bob", "Chris", "Dan" and "Eric" |
| ForgetfulKeys.PutKeepsInvariant | components/collection/src/main/java/org/limewire/collection/FixedsizeForgetfulHashSet.java:140-151 | after a put the key is present; no key appears that was neither there nor put; a map within its bound stays within it, and distinct keys stay distinct |
| ForgetfulKeys.WithoutMembers | components/collection/src/main/java/org/limewire/collection/FixedsizeForgetfulHashSet.java:153-162 | after a removal the removed key is absent, every other key is still present, and no key appears that was not there; removing an absent key changes nothing |
| ForgetfulKeys.WithoutDistinct | components/collection/src/main/java/org/limewire/collection/FixedsizeForgetfulHashSet.java:153-162 | removing a key keeps the keys distinct |
| ForgetfulKeys.AddAllKeepsInvariant | components/collection/src/main/java/org/limewire/collection/FixedsizeForgetfulHashSet.java:9-13 | over any series of puts, the size stays within the capacity and the keys stay distinct; the last key put is present |
| ForgetfulKeys.WithoutSplice | components/collection/src/main/java/org/limewire/collection/FixedsizeForgetfulHashSet.java:153-162 | removing the key at position i of distinct keys yields exactly the keys before i followed by the keys after i, one fewer |
| ForgetfulKeys.WithoutOldest | components/collection/src/main/java/org/limewire/collection/FixedsizeForgetfulHashSet.java:90-98 | removing the first key that iteration yields leaves the rest in order |
| ForgetfulKeys.PutEvictsOldest | components/collection/src/main/java/org/limewire/collection/FixedsizeForgetfulHashSet.java:9-13 | a new key put into a full map evicts exactly the oldest key; the others stay in order with the new key last, and the map stays full |
| ForgetfulKeys.FullIffPutEvicts | components/collection/src/main/java/org/limewire/collection/FixedsizeForgetfulHashSet.java:75-79 | with distinct keys within the bound, adding a new key removes some present key exactly when the map is full (both directions) |
| ForgetfulKeys.AddAllKeepsNewest | components/collection/src/main/java/org/limewire/collection/FixedsizeForgetfulHashSet.java:9-13 | adding distinct keys to an empty map leaves the newest min(capacity, n) of them, oldest first |
| ForgetfulKeys.InsertionOrder | components/collection/src/main/java/org/limewire/collection/FixedsizeForgetfulHashSet.java:29-37 | while no eviction has happened, iteration order is exactly insertion order |
| ForgetfulKeys.AddAllBelowBound | components/collection/src/main/java/org/limewire/collection/FixedsizeForgetfulHashSet.java:17-36 | while a series' distinct keys fit in the capacity, putting the series (repeats included) into an empty map leaves each key once, at its first occurrence, in first-insertion order; a repeated put changes nothing |
| ForgetfulKeys.FifoEviction | components/collection/src/main/java/org/limewire/collection/FixedsizeForgetfulHashSet.java:29-38 | adding capacity + 1 distinct keys forgets the first key and only that key |

## Left out

- `FixedsizeForgetfulHashMap` is not part of this model. Only the contract the set relies on is modelled, as `ForgetfulKeys`. That contract covers key order, bounded `put`, `remove` and `isFull`. The map's `isFull` is taken to mean "size equals the maximum size".
- ForgetfulKeys.Put: whether the backing map's `put` refreshes the place of a key that is already present cannot be seen, because that map is not part of this model. The model assumes it does not, following the FIFO wording of the class documentation (lines 9-13). The documented example gives the same output either way.
- Collection.FixedsizeForgetfulHashSet.constructor: a non-positive size is a precondition here. The backing map's constructor, which is not part of this model, decides what happens then.
- The constructors taking `initialCapacity` and `loadFactor` (lines 60-72) are left out. These hints only tune the hash table's performance, and hashing is not modelled. The constant-time claim is left out for the same reason.
- The iterator is modelled as the sequence it yields (`Iterator`). The fail-fast `ConcurrentModificationException` machinery and removal through an arbitrary iterator position are left out. The one iterator removal the class performs, the first element in `removeLRUEntry`, is modelled.
- `contains` and `remove` accept any `Object` in Java. Here they take the element type `E`, so a value of a foreign type, which Java treats as "not present", cannot be passed.
- `clone`'s `CloneNotSupportedException`/`InternalError` path cannot happen, and `transient` serialisation is out of scope. Independence of the copy is shown by allocation: the copy is a fresh object, and each method modifies only its own receiver.
- The `null` that `removeLRUEntry` returns for an empty set is `None` here. Java allows a `null` element, which makes that return ambiguous; the model has no `null` elements.
- `PingResponse` (the mojito DHT message interface) has no logic and is not part of this model.
