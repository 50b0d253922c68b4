# Verified models of the Emerald virtual machine's runtime

The runtime of the Emerald virtual machine keeps a two-generation heap, decides
conformity of structural types, indexes objects by network-wide identifiers,
writes checkpoints, and exchanges messages with other nodes.  This project models
the parts of it whose correctness spans whole heaps, type graphs or runs, and
proves what they promise.

* **The old generation** (`Heap`, `Plan`, `Move`, `Mark`, `Settle`, `Collection`,
  `OldSpace`).  A sliding-boundary compactor: it marks, finds by a histogram of
  sizes (`IIXSc`) a boundary below which there is a hole of exactly the right size
  for every live object above, moves those objects into the holes, and fixes every
  reference.
* **The young generation** (`Copying`, `Copied`, `Mutation`, `Joint`, `Survival`, `NewSpace`).
  A two-age copying collector with a movable boundary between its halves, a mark
  stack and a remembered set, and the allocator in front of both collectors.  One
  predicate, `Copying.Healthy`, is kept by every allocation, barriered store, change of
  a root or of the object table, young collection and old collection.  `Survival`
  shows that the collections an allocation may run amount to one renaming of the heap.
* **Hash tables** (`Probing`, `IISc`, `ISet`).  Linear probing with deletion that
  rehashes the rest of the cluster.
* **The object table** (`Chains`, `OTable`).  One slot array under two families of
  overflow chains and a free list.
* **Conformity** (`Types`, `Conform`).  A recursive test with assumptions and a
  cache, which decides a greatest fixed point.
* **Checkpoints** (`Format`, `Checkpoint`, `Restore`, `RoundTrip`) in the mode that
  writes everything.
* **Distribution** (`DistMark`, `MQueue`, `Framing`, `Gaggle`).  Marking for the
  distributed collection, message framing, and replicated member lists.

Source code that updates state in place is modelled by classes over arrays, maps and
linked cells whose methods follow the source branch by branch; their contracts tie
the new state to value-level predicates, about which the lemmas speak.  Memory is an
array of words that are flags words, forwarding pointers, free-list links, references
or data.  Addresses are word indices of that array.

Places where the code does not do what its comments or names say are stated as they
are: the immutability test of conformity never rejects (`vm/conform.c:147-148`), which
matters exactly for the flag words `AbstractTypes.ImmutabilityExactly` names; a message
whose length is not positive leaves the connection stuck (`vm/dist.c:354-363`), so that
`Framing.Receiver.WholeIffPositive` is an equivalence; conformity need not be transitive
unless Any is empty and no vector (`AbstractTypes.TransitiveExactly`); and the place
registered for a variable's type that the reading VM does not have is that of the
variable's datum (`vm/read.c:570`, `CheckpointReader.TypeMisplaced`), so that repairing
an object later is as good as having had what it lacks, exactly if that is the type of
none of its variables (`CheckpointReader.RepairedExactly`).  When a large size lost all
its objects before compaction there is no terminator behind the pairs, and the selection
of a size can leave one word over (`vm/iixsc.c:44-61`, `SizeTable.OneWordLeft`); and as
errno is not cleared, the end of a stream behind a time-out is taken for another time-out
(`vm/io.c:203-228`, `Framing.OneMoreExactly`).

## Model

| member | source | states |
|---|---|---|
| `Compactor.OldSpace.GCollectOld` | vm/gc.c:1905-1953 | A whole collection of the old generation: the objects kept are exactly those reachable from the external roots, the words of the young generation and the types of all old objects; each is carried to one new address, different objects to different ones, with its size and data, its type and references renamed to where those objects went; young words, roots and remembered set name the same objects as before; an identifier stays exactly if it names no dead old object, and then names the same object; the rest of the space is filler, so it still parses; boundary minus start equals words needed plus words wasted; and the result satisfies the precondition again |
| `Compactor.OldSpace.FindBoundary` | vm/gc.c:1636-1764 | When the boundary is found, every free list is threaded through memory and holds exactly as many chunks of its size as there are live objects of that size from the end of the sweep on; chunks, live objects and fillers tile the space below the boundary; no live word has changed; boundary minus start is words needed plus words wasted, including the retraction into a last hole |
| `Compactor.OldSpace.SweepToGuess` | vm/gc.c:1652-1682 | The first sweep stops at the first object at or behind the guess, counts each live object down and lists every maximal dead run as a hole with its size: a hole listed ends at a live object, the last one where the sweep stops; histogram plus free chunks still equal the live objects not yet swept, size by size |
| `Compactor.OldSpace.SweepOn` | vm/gc.c:1702-1750 | The second sweep goes on only while a live object has no place, keeps the balance of histogram, chunks and unswept live objects, never runs past nextGen, and ends with every live object provided for |
| `Compactor.OldSpace.FillUp` | vm/gc.c:1542-1571 | A hole is cut up into chunks for live objects that have no place yet; sizes leave the histogram as chunks join the lists, the remainder becomes one filler, and reserved plus wasted words grow by exactly the size of the hole. Nothing that is looked for is wasted: when n words remain, no object without a place has n words, nor up to n/2+2 words if n > 10, nor up to n-2 otherwise |
| `Compactor.OldSpace.SelectAndReserve` | vm/gc.c:1549-1562 | One choice of fillUp for a hole of n words: n itself if an object of that size has no place, otherwise the largest such size up to n/2+2 (n > 10) or n-2, or larger in the one case SelectSmaller names; it leaves the histogram and its chunk is pushed on the free list of that size |
| `Compactor.OldSpace.RecordSize` | vm/gc.c:1439-1448 | A remainder is given a size so that the space parses, and is neither live nor on a free list |
| `Compactor.OldSpace.FillBefore` | vm/gc.c:1716-1731 | A hole that ends at a live object is filled; exactly if that provides for the last live object the sweep stops, the boundary moves back over the remainder, whose words are not counted as wasted, and all words of the hole below the boundary are reserved |
| `Compactor.OldSpace.CountOrReclaim` | vm/gc.c:1732-1746 | A live object whose size the histogram holds is counted down and changes nothing else; otherwise a chunk of its size is given back and filled with other sizes; reserved plus wasted words stay the same |
| `Compactor.OldSpace.Reallocate` | vm/gc.c:1732-1744 | A chunk too many for its size is taken back off its list and filled with other sizes; the balance and the word count are kept |
| `Compactor.OldSpace.MoveThemPuppies` | vm/gc.c:1770-1804 | Every live object beyond the boundary ends up, complete, in a chunk of exactly its size that no other object gets; no live word is overwritten before it is copied; no chunk is left over |
| `Compactor.OldSpace.CheckAndFindNew` | vm/gc.c:1575-1594 | A reference beyond the boundary gets its object's new place, taking a chunk of its size if it has none yet (one always exists); any other reference stays; words already moved keep their meaning |
| `Compactor.OldSpace.GivePlace` | vm/gc.c:1585-1588 | An object takes the first chunk of its size and is forwarded there, and its identifier follows it |
| `Compactor.OldSpace.MoveFields` | vm/gc.c:397-530 | All words of one object are copied with references renamed, forwarding further objects as they are met, and its mark is cleared |
| `Compactor.OldSpace.Mark` | vm/gc.c:1210-1226 | An unmarked old object is marked, counted by size and words, and stacked; nothing that is not reachable is ever marked |
| `Compactor.OldSpace.FlushMarkStack` | vm/gc.c:1230-1238 | Everything stacked is scanned until the marked set is closed; histogram and word total agree with it |
| `Compactor.OldSpace.MarkAll` | vm/gc.c:1925-1928 | After marking from all roots the marked set contains what every root refers to and is closed |
| `Compactor.OldSpace.FollowForwarding` | vm/gc.c:1806-1820 | A reference becomes the address its object has after the move |
| `Compactor.OldSpace.UpdateOld` | vm/gc.c:1827-1832 | The objects that did not move are brought up to date and unmarked in one walk by sizes; moved objects and fillers are left alone |
| `Compactor.OldSpace.ClearRememberedBits` | vm/gc.c:1094-1105 | Exactly the remembered objects lose their bit |
| `Compactor.OldSpace.PurgeRememberedSet` | vm/gc.c:1194-1208 | The remembered set keeps its live members, in order |
| `Compactor.OldSpace.SetRememberedBits` | vm/gc.c:1107-1125 | The members are replaced by their objects' new addresses, and exactly those objects have their bit set |
| `Compactor.OldSpace.PurgeObjectTable` | vm/gc.c:1160-1169 | Exactly the entries of unmarked old objects are dropped |
| `Marking.MarkExact` | vm/gc.c:1210-1238 | When the stack is empty and the roots are covered, marked means reachable: in every set that contains what the roots refer to and is closed under references |
| `Marking.ClosedMeans` | vm/gc.c:1210-1238 | Closed, word by word: every old address that is a root, or that a young word or an old object's flags word names, is in the set, and so is every one that a field or flags word of an object of the set names |
| `Marking.LeastClosed` | vm/gc.c:1210-1238 | What is reachable is the least closed set |
| `CompactionPlan.OwedReclaim` | vm/gc.c:1732-1744 | A live object whose size the histogram no longer has leaves a chunk of that size to give back, and giving it back keeps histogram plus chunks equal to the unswept live objects |
| `CompactionPlan.OwedNone` | vm/gc.c:1708-1750 | With nothing left to sweep nothing is owed, so the sweep stops at nextGen at the latest |
| `CompactionPlan.CompleteAt` | vm/gc.c:1708-1754 | An empty histogram means each list has exactly the chunks the remaining live objects need, and their words are accounted for |
| `CompactionMove.PlaceMoving` | vm/gc.c:1585-1588 | Forwarding an object to the first chunk of its size keeps lists, forwarding pointers, finished copies, unmoved objects and the remaining balance |
| `CompactionMove.NamesPlaced` | vm/gc.c:133-150 | No identifier names the chunk an object is given, so the object table's update may be called, and afterwards every identifier names its object where it is now |
| `CompactionMove.MoveComplete` | vm/gc.c:1770-1804 | Once every live object beyond the boundary has been moved no chunk remains and the space below the boundary is live objects, moved objects and fillers |
| `OldCollection.AllPreserved` | vm/gc.c:1905-1953 | Copies, fix-up and flags together carry the heap over one-to-one |
| `OldCollection.CarriedMeans` | vm/gc.c:397-530 | Word by word: at its one new place an object has its size, its type and reference fields name the new places of what they named, its data are the same, and no other object is there |
| `OldCollection.PreservedMeans` | vm/gc.c:1806-1832 | Young words and roots name the new places of what they named, and whatever in the old generation is no live object's place is filler |
| `OldCollection.StillSound` | vm/gc.c:1905-1953 | The heap after a collection is well-formed: every reference leads to an object, flags agree with the remembered set |
| `OldCollection.NewRemembered` | vm/gc.c:1107-1125 | The new remembered set has each live member once, under its new address, and no one else |
| `SizeTable.IIXSc.Compact` | vm/iixsc.c:22-62 | Compaction keeps every count and leaves pairs sorted by size, with an index entry for exactly the sizes that are live; the terminator is missing behind them exactly if a large size had an entry but no object |
| `SizeTable.IIXSc.SelectSmaller` | vm/iixsc.c:155-175 | For a size n: n itself if it is live, otherwise the largest live size up to n/2+2 (n > 10) or n-2, and 0 if there is none; but if the terminator is missing and n is small and larger than every size with a pair, the largest live size of all. Lowers only the one count |
| `SizeTable.OneWordLeft` | vm/iixsc.c:155-175 | Where the terminator is missing a hole of 7 words is given to an object of 6, which leaves one word over |
| `SizeTable.NoneChosen` | vm/iixsc.c:155-175 | With the terminator the same hole gets none |
| `SizeTable.IIXSc.Find` | vm/iixsc.c:88-107 | The binary search ends at the pair of the size looked for if there is one, otherwise next to where it would be |
| `SizeTable.IIXSc.BumpBy` | vm/iixsc.c:128-145 | Changes the count of one size and no other, compacted or not, and returns the new count, but 1 for a large size that had no entry before compaction |
| `SizeTable.IIXSc.Bump` | vm/iixsc.c:109-126 | Adds one to the count of one size and to no other |
| `SizeTable.IIXSc.Insert` | vm/iixsc.c:147-153 | Sets the entry of one size and no other |
| `SizeTable.IIXSc.Lookup` | vm/iixsc.c:72-86 | Before compaction the entry of a size, or 0 for an absent small size and -1 for an absent large one; afterwards its count, and for a small size without a pair that of the next larger size that has one, 0 if none has |
| `IntTable.IISc.Delete` | vm/iisc.c:228-266 | Removes exactly that key: every other key is found again with its value, across wraparound; the reinsertions never expand the table |
| `IntTable.IISc.Rehash` | vm/iisc.c:250-263 | Reinserting the rest of the cluster, one slot after the other, leaves every remaining key findable from its home slot |
| `IntTable.IISc.Insert` | vm/iisc.c:180-206 | The key has the value and all other keys are as they were; the table doubles exactly if it held 17/20 of its size before |
| `IntTable.IISc.Lookup` | vm/iisc.c:115-132 | The value of the key, or the answer for an absent one; the probe ends because an empty slot remains |
| `IntTable.IISc.ExpandHashTable` | vm/iisc.c:79-112 | A table twice as large with the same contents and room for more |
| `Probing.StopDecides` | vm/iisc.c:115-132 | A probe that stops at an empty slot proves the key absent |
| `Probing.StopsWhere` | vm/iisc.c:115-132 | Which slots a probe goes past: those from the hash value modulo the size up to where it stops, round the end of the table if need be, all occupied and none with the key |
| `Probing.RehashStep` | vm/iisc.c:250-263 | One reinsertion of the delete loop: what has been reinserted stays findable, what is left in the cluster is still to come, and nothing moves outside it |
| `Probing.RehashDone` | vm/iisc.c:228-266 | When the loop meets the empty slot after the cluster, every key but the deleted one is findable |
| `Probing.RehashLandsInside` | vm/iisc.c:250-263 | A reinserted key lands at or before the slot it came from, counted from the gap, so it is not met again |
| `IntSet.ISet.Delete` | vm/iset.c:198-232 | Removes exactly that member; members only move backwards inside the cluster of the gap |
| `IntSet.ISet.Insert` | vm/iset.c:173-196 | Adds exactly that member |
| `IntSet.ISet.Member` | vm/iset.c:127-145 | Tells membership |
| `IntSet.ISet.PrepareMsg` | vm/distgc.c:101-121 | Iterating while deleting the current element and stepping the index back ends, visits every element that survives, and deletes exactly those without an identifier, wraparound included |
| `YoungCollector.NewSpace.CopyAll` | vm/gc.c:857-870 | A young collection keeps exactly the young objects reached from remembered objects, roots and object table entries; each is copied once, those between survivors_start and survivors_end to the old generation and the others to to-space, complete and with references renamed; old objects, roots and table entries follow; the heap is healthy again, including: an old object that refers to a young one is in the remembered set |
| `YoungCollector.NewSpace.Gcollect` | vm/gc.c:844-908 | The reached young objects are relocated and, if the survivors might then find no room, the live old ones carried: together one one-to-one renaming of exactly the objects kept, which roots, object table and every kept object follow, with sizes, types and data unchanged; the allowance is set by the formula in force; the result is a heap ready for allocation unless the survivors do not fit even then, which is when the VM stops |
| `YoungCollector.NewSpace.GcMalloc` | vm/gc.c:993-1020 | A request of at most a generation takes at most one collection, none if the allowance covers it; the new object, its fields NIL, is at an address that had none, and every other word is as it was, or, after a collection, the heap is the old one under one renaming; larger or inhibited requests are allocated old; the heap stays healthy, to-space stays large enough and survivors keep their room |
| `YoungCollector.NewSpace.GcMallocOld` | vm/gc.c:954-990 | An old object is allocated behind the others without touching the room reserved for survivors; nothing else changes if there was room, otherwise, unless that is inhibited, the heap is carried through gcollect and another collection of the old generation under one renaming; failure means there was too little room even then, or collecting was inhibited |
| `YoungCollector.NewSpace.NewMeans` | vm/gc.c:979-1019 | Word by word, of a new object of either generation: its flags word holds size and type, its fields are NIL, and every other word, root and identifier is as it was |
| `YoungCollector.NewSpace.Store` | vm/gc.c:910-917 | One word changes, and beyond that just the remembered bit and set, exactly if an old object without its bit now refers to a young one; the heap stays healthy |
| `YoungCollector.NewSpace.EnterObject` | vm/oidtoobj.c:53-61 | An object gets an identifier, neither being in the table, and nothing else changes; the heap stays healthy |
| `YoungCollector.NewSpace.RemoveObject` | vm/oidtoobj.c:63-75 | An object loses its identifier if it has one, and nothing else changes; the heap stays healthy |
| `YoungCollector.NewSpace.StoCheck` | vm/gc.c:910-917 | The object joins the remembered set, and gets its bit, exactly if it is old, the reference is young and it was not a member |
| `YoungCollector.NewSpace.NewRemSet` | vm/gc.c:318-331 | A member is added once; bit and membership agree |
| `YoungCollector.NewSpace.CheckAndFindNew` | vm/gc.c:333-374 | The place of an object of from-space, given to it now if it had none; anything else stays; everything under way is kept |
| `YoungCollector.NewSpace.Carry` | vm/gc.c:133-150 | Flags word to the new place, forwarding pointer behind, the identifier's entry following; the to-space pointer never crosses the from-space pointer |
| `YoungCollector.PlaceUnnamed` | vm/gc.c:133-150 | No identifier names the place an object is copied to |
| `YoungCollector.NewSpace.NewAddrInNew` | vm/gc.c:181-195 | Bumps the to-space pointer in its direction; the assertion that it does not cross never fails |
| `YoungCollector.NewSpace.UpdateObjectLocation` | vm/oidtoobj.c:104-112 | Only the entry of the moved object changes; every call meets what the object table's update requires, that no identifier names the new address |
| `YoungCollector.NewSpace.MoveFields` | vm/gc.c:397-551 | The object is finished in its new place; the answer says whether one of its fields names an object that stays young |
| `YoungCollector.NewSpace.FlushStack` | vm/gc.c:553-565 | Ends with nothing left to scan; promoted objects that refer to to-space are remembered, and no others join the set |
| `YoungCollector.NewSpace.TlMove` | vm/gc.c:622-773 | A remembered object is brought up to date in place; something has changed exactly if it referred to something young |
| `YoungCollector.NewSpace.MoveFromRoots1` | vm/gc.c:775-795 | Every object remembered at the start has been gone through; exactly those that refer to nothing young are struck out, and only promoted objects that refer to to-space have been added |
| `YoungCollector.NewSpace.ChRemSet` | vm/gc.c:805-815 | The members struck out are removed and no others |
| `YoungCollector.StaysRemembered` | vm/gc.c:775-815 | After a young collection an object remembered before is in the set exactly if one of its fields named a young object |
| `YoungCollector.PromotedRemembered` | vm/gc.c:553-565 | A promoted object is in it exactly if one of its fields names an object that has stayed young |
| `YoungCollector.NoOthersRemembered` | vm/gc.c:553-565 | Nothing else is in it |
| `YoungCollector.NewSpace.MoveRoots` | vm/misc.c:1265-1303 | Every external root refers to where its object is now |
| `YoungCollector.NewSpace.MoveTable` | vm/misc.c:1324-1341 | Every object the object table names has been copied, and each identifier names the same object |
| `YoungCollector.NewSpace.Swap` | vm/gc.c:251-276 | The halves change places and the survivors are the objects just copied |
| `YoungCollector.NewSpace.CollectOld` | vm/gc.c:884-886 | A collection of the old generation between young ones carries exactly the reachable old objects, keeps the whole heap healthy and the allowance as it was |
| `YoungCollector.AllowanceFits` | vm/gc.c:872-876 | Under either allowance formula fresh words fit into what to-space leaves, and what is left never reaches it |
| `YoungCollector.AllowanceNext` | vm/gc.c:872-876 | After a collection with no more survivors than there were fresh words, either formula allows at least a generation |
| `CopyDone.ExactlyReached` | vm/gc.c:844-870 | The copied objects are exactly the reached ones |
| `CopyDone.AllRelocated` | vm/gc.c:844-870 | Every reached object is carried over, every old object stays, nothing else is there |
| `CopyDone.StillHealthy` | vm/gc.c:844-870 | The heap after the copying is healthy: parses, good references, complete remembered set, one-to-one object table |
| `Copying.PlaceCopying` | vm/gc.c:333-374 | Copying one more object keeps everything the collection relies on |
| `Copying.ClosedMeans` | vm/gc.c:775-795 | What a young collection reaches, word by word: every young address that is a root or a table entry, or that a field of a remembered object or of a reached one names |
| `Copying.OldWordMeans` | vm/gc.c:910-917 | A young object that a field of an old one names is there, and the old one has its bit and is in the remembered set; an old object it names is there and has a type |
| `Copying.RoomFor` | vm/gc.c:181-210 | An object still to be copied fits: fresh ones within the fresh words, survivors within the survivor words |
| `Mutation.YoungHealthy` | vm/gc.c:1002-1019 | A new young object, above or below the others, keeps the heap healthy |
| `Mutation.OldHealthy` | vm/gc.c:979-989 | A new old object keeps the heap healthy, remembered or not |
| `Mutation.StoreHealthy` | vm/gc.c:910-917 | A store with its barrier keeps the heap healthy |
| `BothGenerations.HealthySound` | vm/gc.c:884-886 | A healthy heap meets what the collector of the old generation needs |
| `BothGenerations.CompactedHealthy` | vm/gc.c:884-886 | What that collector leaves is healthy for the young one: remembered set complete, object table still one-to-one |
| `Survival.YoungMoves` | vm/gc.c:844-870 | A young collection is a one-to-one renaming of the reached young and all old objects: each is complete at its new place, and whatever it, the roots or the object table refer to is kept and renamed alike |
| `Survival.OldMoves` | vm/gc.c:1905-1953 | A collection of the old generation is such a renaming of the live old and all young objects; the object table keeps exactly the identifiers of objects that are kept |
| `Survival.MovedThen` | vm/gc.c:884-890 | Two collections in a row are one such renaming, their composition |
| `Survival.GatheredMoves` | vm/gc.c:844-908 | Whatever gcollect did, one renaming relates the heaps before and after it |
| `Survival.GatheredMeans` | vm/gc.c:884-886 | gcollect runs the collector of the old generation exactly if the young objects left, all survivors now, are more words than there is room for |
| `Survival.MovedMeans` | vm/gc.c:844-908 | Word by word: at its one new place every kept object has its size, its type and reference fields name the new places of what they named, which is kept too, and its data are the same |
| `Survival.MovedRoots` | vm/gc.c:844-908 | Roots and identifiers name the new places of what they named; what a root names is kept, an identifier lasts exactly as long as its object, and there are no objects but those kept |
| `Survival.NothingLost` | vm/gc.c:844-908 | Every object reachable from the roots, in either generation, is kept by it |
| `Conformity.Conformer.Conforms` | vm/conform.c:15-23 | Answers 1 exactly when the pair is in the greatest relation closed under the coded rule, and then every operation of the second that is a function meets one as its first match in the first; ends, and keeps every cached answer right |
| `Conformity.Conformer.Iconforms` | vm/conform.c:44-232 | 0 means the pair is not in the greatest relation whatever is assumed; 1 means it is assumed or holds, and every assumption made since is allowed by the rule given the assumptions; only the outermost answer is cached |
| `Conformity.Conformer.CheckOps` | vm/conform.c:155-226 | Every operation of the second type has its match in the first, or the pair is not in the relation |
| `Conformity.Conformer.CheckOp` | vm/conform.c:161-224 | The first operation of the same name and argument count decides: function-ness, contravariant arguments, covariant results |
| `Conformity.Conformer.Load` | vm/conform.c:12-13 | Loading more types keeps all cached answers right |
| `AbstractTypes.FixedPoint` | vm/conform.c:78-224 | The greatest closed relation is a fixed point of the rule |
| `AbstractTypes.ConformsOnlyIf` | vm/conform.c:78-224 | The rule in full: a type conforms to another, cases decided beforehand aside, only if that is not None, nor a vector unless it is one too, nor a closed builtin, has no more operations, and for each of them the first operation of that name and number of arguments is a function if that is one, accepts its arguments and gives its results |
| `AbstractTypes.ConformsIf` | vm/conform.c:78-224 | ... and if |
| `AbstractTypes.FunctionsOneWay` | vm/conform.c:173-179 | A type with one function conforms to the same type with a plain operation, and not the other way round |
| `AbstractTypes.SelfReferring` | vm/conform.c:160 | Two types that each have one operation giving the type itself conform: what is assumed counts |
| `AbstractTypes.Reflexive` | vm/conform.c:103-123 | Every type conforms to itself |
| `AbstractTypes.Transitive` | vm/conform.c:78-224 | Conformity is transitive on types without missing parts when Any has no operations and is no vector: the relation composed with itself is closed |
| `AbstractTypes.TransitivityBroken` | vm/conform.c:88-93 | If Any has an operation or is a vector, two types can be loaded such that the first conforms to Any and Any to the second but not the first to the second |
| `AbstractTypes.TransitiveExactly` | vm/conform.c:78-224 | However many well-formed types are loaded conformity stays transitive, if and only if Any has no operations and is no vector |
| `AbstractTypes.SameAnswers` | vm/conform.c:70-75 | Loading more types changes no answer about the types there were |
| `AbstractTypes.ImmutabilityIgnored` | vm/conform.c:147-148 | The immutability test as coded agrees with what it is meant to test exactly when there is nothing to reject |
| `AbstractTypes.MutableConforms` | vm/conform.c:147-148 | For any two flag words of a mutable and an immutable type that the vector test lets through there are types with them of which the first conforms to the second, though it is not meant to |
| `AbstractTypes.WhenImmutabilityMatters` | vm/conform.c:147-153 | Coded and meant rule give the same relation exactly when no mutable type conforms to an immutable one beyond the cases decided beforehand |
| `AbstractTypes.ImmutabilityExactly` | vm/conform.c:129-153 | The test that never rejects makes no difference to any type graph whose flag words are in a given set, if and only if no two words of the set are of a mutable and an immutable type that the vector test lets through |
| `AbstractTypes.Match` | vm/conform.c:166-172 | The first operation with the same name and argument count, and none before it |
| `ObjectTable.OTable.constructor` | vm/otable.c:64-85 | An empty table: all slots but the first are free |
| `ObjectTable.OTable.Insert` | vm/otable.c:103-128 | Adds the pair, in a larger table exactly if all slots but the first were used; identifiers and objects stay one-to-one, both chain families and the free list account for every slot but the first |
| `ObjectTable.OTable.ExpandHashTable` | vm/otable.c:130-145 | A larger table with the same pairs and a free slot |
| `ObjectTable.OTable.LookupByOID` | vm/otable.c:148-170 | The object of an identifier, or NIL if it has none |
| `ObjectTable.OTable.LookupByObject` | vm/otable.c:173-196 | The identifier of an object, or the null identifier if it has none |
| `ObjectTable.OTable.RemoveFromOIDChain` | vm/otable.c:205-224 | The slot is linked past in its identifier chain; all chains stay in order and no object link changes |
| `ObjectTable.OTable.RemoveFromOChain` | vm/otable.c:227-247 | The slot is linked past in its object chain; all chains and the free list stay in order |
| `ObjectTable.OTable.Delete` | vm/otable.c:249-260 | The slot leaves both chains and becomes the first free one; exactly its pair is gone |
| `ObjectTable.OTable.DeleteByOID` | vm/otable.c:262-272 | Removes the pair of the identifier, if any |
| `ObjectTable.OTable.DeleteByObject` | vm/otable.c:274-284 | Removes the pair of the object, if any |
| `ObjectTable.OTable.UpdateValue` | vm/otable.c:286-294 | The identifier of a moved object names it where it is now; all other pairs stay; still one-to-one |
| `ObjectTable.NotOnOidChain` | vm/otable.c:148-164 | An identifier not met on its chain is not in the table |
| `ObjectTable.NotOnOChain` | vm/otable.c:173-189 | An object not met on its chain is not in the table |
| `OverflowChains.FamilyCut` | vm/otable.c:205-247 | Linking past one member of one chain keeps all chains acyclic, disjoint and complete |
| `OverflowChains.SparePop` | vm/otable.c:110-116 | Taking the first free slot leaves a free list of exactly the other unused slots |
| `CheckpointWriter.Writer.Checkpoint` | vm/write.c:564-597 | The worklist is free of duplicates, starts with the original and holds exactly what is reachable from it; the stream is the records of its objects, last first, and what their reference words lead to is on the worklist and recorded as its position; the only change to the heap is that empty variables lose their type |
| `CheckpointWriter.ExactlyReachable` | vm/write.c:564-597 | A closed set of which everything was found from the original is exactly what is reachable from it |
| `CheckpointWriter.Writer.FoundOne` | vm/write.c:45-71 | An object goes on the worklist unless it is there, and the map gives its position |
| `CheckpointWriter.Writer.Traverse` | vm/write.c:91-215 | The type of an object and what its fields refer to are found; a builtin is left alone, of a stub only the type is found |
| `CheckpointWriter.Writer.Writeem` | vm/write.c:493-525 | The object at position k of the worklist is written at position maxI - k of the stream |
| `CheckpointWriter.Writer.WriteOne` | vm/write.c:267-325 | A builtin is written as its identifier, an object that is elsewhere as a stub, any other with its length, identifier if any, type and words |
| `CheckpointWriter.Writer.WriteWord` | vm/write.c:342-445 | References, and data of variables whose type says so, are written as stream positions, everything else as it is |
| `CheckpointWriter.WordWritten` | vm/write.c:342-445 | Word by word of a resident object: a plain word is recorded as it is; a reference, a variable's type, and its datum if the type says so, is NIL or leads to an object on the worklist, and that object's position from the end is recorded |
| `CheckpointWriter.OtherWritten` | vm/write.c:267-325 | What is recorded of a builtin, its identifier alone, and of an object elsewhere: identifier, size, position of its type, and where it lives |
| `CheckpointWriter.NormalisedMeans` | vm/write.c:146-160 | The only words traversal changes are types, of those whose data are references, of variables without a datum: they become NIL |
| `CheckpointReader.Reader.ReadTheCheckpointStream` | vm/read.c:1063-1291 | Each record in turn updates the object that the VM or an earlier record has under its identifier, or makes one; if identifiers differ no two records share an object, and other objects of the VM are untouched |
| `CheckpointReader.Reader.IndexToObject` | vm/read.c:147-193 | A position leads to the object there, or to the one its external identifier names; if the VM has none the answer is NIL and the slot is registered for that identifier |
| `CheckpointReader.Reader.InterpTemplate` | vm/read.c:534-667 | Exactly the words that hold references are replaced by the objects at their positions, and exactly those whose object is missing are registered |
| `CheckpointReader.Reader.TranslateTheCheckpointArray` | vm/read.c:708-723 | Every object waiting is translated once, no other object changes, and exactly the references left NIL by it are registered |
| `CheckpointReader.Reader.ReadCheckpoint` | vm/read.c:1293-1308 | For any stream whose records fit their types: the objects are those the records make or update in turn, translated once; identifiers name the objects of their records, those of before still name the same objects, and the VM is sound again; if identifiers differ, each record's object has its identifier, its type and its words with references to the objects at their positions |
| `CheckpointReader.SameOidSameObject` | vm/read.c:1107-1192 | Records of one identifier are records of one object, that of the VM if it has one |
| `CheckpointReader.ReadOnce` | vm/read.c:1063-1291 | If identifiers differ, reading in turn gives every record an object of its own |
| `CheckpointReader.HoleRegistered` | vm/read.c:534-600 | A reference is missing if and only if translation makes it NIL and it was not; a missing one is registered under its own slot if and only if it is not the type of a variable |
| `CheckpointReader.RegisteredSlots` | vm/read.c:147-193 | Exactly which slots of an object are registered for an identifier: those whose own reference is missing and is no variable's type, and those of data whose variable's type is missing |
| `CheckpointReader.TypeMisplaced` | vm/read.c:568-573 | A stream on which the source goes on and registers the slot of a variable's datum, and not the slot of its type, for the missing type |
| `CheckpointReader.RepairedExactly` | vm/oidtoobj.c:129-147 | Repairing an object when the missing one turns up makes of it what translation would have made had it been there at once, if and only if no type of a variable was missing for it |
| `CheckpointReader.LateAsEarly` | vm/read.c:147-163 | The same for any object of a stream that has been read, with everything that has been registered |
| `CheckpointReader.Reader.UpdateOid` | vm/oidtoobj.c:53-61 | An object that turns up later is entered under its identifier, exactly the slots registered for that hold it, and they are registered no longer |
| `CheckpointFormat.LayoutSame` | vm/write.c:110-215 | Which words are references depends only on words that are never replaced, so the reader finds the same layout in the positions as the writer in the addresses |
| `CheckpointFormat.LayoutFields` | vm/write.c:110-215 | Words that fit a template are divided into its fields, one after the other, with nothing left over |
| `CheckpointFormat.WordKind` | vm/write.c:110-215 | What a word is, by template and position: an array stands behind its length; a word of a reference field is a reference, of variables alternately a datum and a type, of words and bytes plain, four bytes of an array to a word |
| `CheckpointFormat.FieldsFit` | vm/write.c:110-215 | Words so divided fit the template, with just those kinds |
| `CheckpointFormat.ReplaceTwice` | vm/read.c:572-600 | Replacing addresses by positions and positions by objects is replacing addresses by objects, variables included |
| `CheckpointRoundTrip.RecordsGood` | vm/write.c:267-491 | Every record the writer makes fits its type's template and refers to positions inside the stream |
| `CheckpointRoundTrip.RoundTrip` | vm/write.c:564-597 | What reading makes of the records of a written heap is isomorphic to it: different objects, builtins included, become different objects; each is named by its identifier, if any, and has its type and words under the correspondence; builtins become the reader's own, or NIL exactly if it has none |
| `CheckpointRoundTrip.WordBack` | vm/write.c:564-597 | Word by word of a resident object after the transfer: plain words are the same, and what was a reference, a type or a reference datum is NIL if it was, or what the object it led to has become |
| `CheckpointRoundTrip.OtherBack` | vm/read.c:1063-1192 | What a builtin or an object elsewhere becomes, in all fields, and that identifiers name what their objects became |
| `CheckpointRoundTrip.WrittenOnce` | vm/write.c:267-325 | If objects have different identifiers, and builtins and those elsewhere have one, the records written carry different ones |
| `CheckpointRoundTrip.Transfer` | vm/write.c:564-597 | Writing from one VM and reading into another, end to end: exactly what is reachable from the original is there again, isomorphic and under its identifiers, every reference leading to what its object has become; the VM is sound, its identifiers name what they named, and its other objects are untouched |
| `DistributedMarking.Marker.StartDistGC` | vm/distgc.c:339-364 | The marked objects are exactly those reachable from the roots through resident objects: the type of a marked object is marked, resident or not, and what the fields of a resident one name, and what is no root is named so by another one; the grey set is exactly the marked objects that are elsewhere and have an identifier |
| `DistributedMarking.TracedMeans` | vm/distgc.c:449-569 | Object by object: the type of a marked heap object is marked, and if it is resident what its fields name; a marked object that marking did not start from is the type of another marked heap object, or named by a field of a resident one |
| `DistributedMarking.Marker.Mark` | vm/distgc.c:407-426 | One object is marked, becomes grey if it is elsewhere and has an identifier, and is stacked |
| `DistributedMarking.Marker.NewGrey` | vm/distgc.c:392-405 | The object is grey, the grey count grows, and a termination under way is called off |
| `DistributedMarking.Marker.Flush` | vm/distgc.c:433-442 | Everything stacked is scanned; only what lies behind it is marked |
| `DistributedMarking.Marker.BitToSend` | vm/distgc.c:74-92 | A reference that leaves is marked first with exactly what lies behind it, and sent black unless its object is elsewhere and grey |
| `DistributedMarking.Marker.IncomingObject` | vm/distgc.c:635-647 | After an object arrives the marked objects are exactly those reachable from the ones marked before and from it; it is no longer grey, and the newly marked objects that are elsewhere are |
| `DistributedMarking.Marker.IncomingRef` | vm/distgc.c:659-686 | A grey report of a resident object, or any report of an unmarked one, makes it an interesting black and marks exactly what is reachable from it in addition; a black report of a marked object or one elsewhere takes it off the grey set and marks nothing; no other report changes anything |
| `Framing.Sender.Dwrite2` | vm/dist.c:62-108 | Through any short writes and interruptions a prefix of both buffers, in order, has been written, all of it exactly when the result is their length; without a failure and with enough written it completes |
| `Framing.Sender.Send` | vm/dist.c:565-570 | A complete send appends exactly one frame to the stream |
| `Framing.Receiver.TryReading` | vm/io.c:203-228 | Reads up to the goal and says whether it is reached; 0 after an interruption or a time-out; -1 after an error; when nothing could be read otherwise, or no bytes were asked for, 0 exactly if errno still says timed out, and else -1 |
| `Framing.Receiver.ReaderCB` | vm/dist.c:335-372 | For any fragmentation the bytes received are the delivered messages' frames and a part of the next; each completed message is queued whole; an interruption or time-out leaves connection, buffer, goal and queue as they were, an error gives the connection up, and so does reading nothing unless errno still says timed out; after a length that is not positive nothing is read any more |
| `Framing.OneIgnored` | vm/io.c:203-228 | An interruption or time-out inserted anywhere into a run changes neither what is delivered nor whether the connection is open, nor anything else |
| `Framing.InterruptionsIgnored` | vm/io.c:203-228 | Runs that differ in any number of interruptions and time-outs, wherever they come, end alike |
| `Framing.OneMoreExactly` | vm/io.c:203-228 | With errno as an earlier call left it, one more interruption or time-out makes no difference to anything that can follow if and only if it leaves errno as it was: after a time-out the end of the stream is taken for another one |
| `Framing.Receiver.Delivered` | vm/dist.c:335-372 | What has been delivered is a prefix of what was sent, unaltered and in order; when all bytes have arrived all messages are out; a stream of messages never gets the reader stuck |
| `Framing.Receiver.StuckAfter` | vm/dist.c:354-363 | When just messages and a length that is not positive have been read, the messages are out and the connection is stuck |
| `Framing.Receiver.StuckAt` | vm/dist.c:335-372 | On any length-prefixed stream a connection is stuck only right behind the first length that is not positive, with exactly the messages before it out, and it is stuck if all of such a stream has been read |
| `Framing.Receiver.WholeIffPositive` | vm/dist.c:335-372 | When no more will be read, a length-prefixed stream has been read whole and is out if and only if all its lengths are positive |
| `Framing.EmptyMessage` | vm/dist.c:354-363 | An empty message is such a length, whatever is framed after it |
| `Framing.InOrder` | vm/dist.c:335-372 | The frames read from a stream of frames, and of what begins no frame, are its own, in order |
| `Framing.OneReading` | vm/dist.c:335-372 | A stream can be divided into frames and a rest that begins none in one way only |
| `Framing.DecodeEncode` | vm/dist.c:565-566 | The length is recovered from its bytes in network order |
| `MessageQueue.MQueue.Insert` | vm/mqueue.c:57-65 | The message joins the end of the queue, across wraparound and growth |
| `MessageQueue.MQueue.Remove` | vm/mqueue.c:68-77 | The first message leaves the queue, the others stay in order |
| `MessageQueue.MQueue.ExpandTable` | vm/mqueue.c:43-54 | Doubling a full ring keeps its contents |
| `MessageQueue.RingExpand` | vm/mqueue.c:43-54 | Repeating the part before the first message after the rest unrolls the ring |
| `GaggleLists.LessOrder` | vm/gaggle.c:10-20 | The comparison is a strict total order on identifiers |
| `GaggleLists.LessMeans` | vm/gaggle.c:10-20 | The first component in which two identifiers differ decides: address, port, epoch, number, the lower one first |
| `GaggleLists.Gaggle.Add` | vm/gaggle.c:39-69 | A member not there yet is linked in where the order wants it; the list stays sorted and free of duplicates |
| `GaggleLists.Gaggle.Delete` | vm/gaggle.c:229-262 | The member is unlinked, and every other node that is up is told, exactly if it was there |
| `GaggleLists.Gaggle.SendGaggleUpdate` | vm/gaggle.c:152-172 | A message to every other node that is up, in the order and as often as it is listed |
| `GaggleLists.ReplicasAgree` | vm/gaggle.c:39-69 | Replicas that received the same additions, in any order and with repeats, are the same sorted list |
| `GaggleLists.SortedUnique` | vm/gaggle.c:39-69 | A sorted list is determined by its members |
| `GaggleFlood.DeliverCovered` | vm/remote.c:1088-1119 | Every delivery keeps: a node that is up and still lists the member has a message coming |
| `GaggleFlood.DeliverMeasure` | vm/remote.c:1088-1119 | Every delivery brings the flood nearer its end |
| `GaggleFlood.FloodEnds` | vm/gaggle.c:229-262 | In whatever order the messages of a deletion arrive, there are finitely many, and when none is left no node that is up lists the member and each list is otherwise unchanged |

## Left out

- Address-level details: casts, flag-bit packing, byte order inside objects. Words are tagged values; the size of an object, which the source computes from its type, is part of its flags word.
- The concrete type given to a filler: it is modelled as no type, where the source gives it a builtin type that is always reachable.
- Stubs of vectors in `move_fields`, where the source tests a flag on a word already replaced, and the multi-element case of `move_pointers` and `mark_pointers`.
- Objects outside the collected heap (process states) in both collectors, and the entries of the object table that the collector of the old generation takes for roots: callers pass the latter among the roots.
- A copy count of 1, `anticipateGC`, `ensureSpace`, statistics and tracing.
- Types in the young generation: the source allocates types old, and `tl_move` relies on it; the heap condition says so.
- Running out of memory inside the collectors' own tables and stacks; the hash tables' list of sizes, which in the source ends at about sixteen million slots, doubles without end here.
- SizeTable.IIXSc.SelectSmaller: for a size of 1 that is not live it answers 0, where the source's scan starts before its array.
- SizeTable.IIXSc.Lookup: a large size without a pair after compaction, for which the source takes the null entry of the hash table for an address; `Bump` and `BumpBy` likewise require a pair then.
- Hash functions: any function to the naturals.
- Conformity.Conformer.Conforms: operations with the same name and argument count are required to have equally many results, since the source indexes both result lists by one count; names are compared as strings without embedded zero bytes.
- Parsing of template strings and the bootstrapping of type objects in the checkpoint reader: templates are lists of fields, and the reader is given those of the types in the stream.
- CheckpointWriter.Writer.Checkpoint: the mode that does not write everything, where a negative position of 1 collides with the null entry of the map; literals of types, monitors and condition queues, which are reset on writing; a variable with a datum but no type, whose datum the traversal does not look at.
- CheckpointReader.Reader.UpdateOid: repairs while another stream is being read, when the object to be repaired may itself be about to be read again; and what is registered when the type of an object is missing, which stops the source.
- CheckpointReader.Reader.InterpTemplate: an object whose type, or a variable with a datum whose type, is missing from the VM stops the source by an assertion; the model goes on. Folding of equal strings on reading.
- CheckpointReader.Reader.ReadCheckpoint: records that do not fit their type or refer to positions beyond the stream, and stubs without an identifier, which the writer does not make.
- DistributedMarking.Marker.StartDistGC: termination of the distributed collection (timestamps and done reports), loss of objects and nodes, and the location protocol.
- Framing.Sender.Send: what follows a failed write, and the closing of the socket with its notification; connection set-up, user checks, and the marker word at the start of each message.
- GaggleFlood.FloodEnds: additions concurrent with a deletion, nodes that go down during a flood, and a deletion at a node that has never heard of the gaggle, for which the lookup answers the null value of the table; that is not zero, so it passes the source's test for a missing list and is followed. All nodes that are up are taken to know of each other, and channels to be reliable.
- Sockets, `select`, signals, timers, the debugger, the profiler, foreign calls, and the compiler.
