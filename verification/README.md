# Freshcity verification

A Dafny model of the parts of this repository where an error would be hardest to see, and proofs
of what they are for. `dafny verify dfyconfig.toml` checks all of it.

- **BSON** (`Bytes`, `BsonFormat`, `BsonExamples`, `BsonBuilder`, `BsonIterator`, `BsonDotted`). A
  document is a list of named values; `EncDoc` gives its bytes (bsonspec.org, section
  "Non-terminals"), and `BsonExamples` spells out those of the site's examples and of every type. The
  builder appends to a growable byte array and patches sizes in place, the iterator walks the bytes
  by element sizes, `valid` walks them with bounds checked, and dotted names are flattened and
  looked up.
- **The order of documents** (`Numbers`, `BsonCompare`, `BsonOrder`, `BsonMeaning`, `BsonOrdering`,
  `BsonEquality`). The recursive, type-canonicalising comparison, what its sign says of the two
  values, when exactly it is a total preorder, the bit mask that stands for a key pattern, and three
  notions of equality.
- **The cursor** (`Cursor`): batches, a limit and put-backs over a plain list of results.
- **The replica set** (`ReplicaSet`, `LazyRetry`): round-robin secondaries, reconciliation of the
  node list, and the retry protocol split over two functions.
- **The connection pool** (`ConnectionPool`): every connection ever created has exactly one place
  (idle at a position of a stack, with a client, or destroyed), and `Valid()` keeps the stacks and
  the places together over every operation.
- **GridFS** (`GridFs`): two ways to cut a file into chunks, and the way back.
- **SHA-256** (`Words`, `Fips180`, `Fips180Meaning`, `Sha256`): the game server's implementation
  against FIPS 180-4, and what the functions and constants of the standard are.
- **Hooks** (`Hooks`, `AmxHooks`): code patching under scoped guards, over arbitrary trees of
  re-entrant calls.
- **The property economy** (`PropertyEconomy`): purchases, draws and sales.

## How to read it

A C++ class whose methods change its fields is a class here; `Valid()`, or a named invariant such
as `Open`, says what every method keeps, and a function gives the value it stands for. Loops are
proved against functions, and the properties are lemmas about those functions. A call that throws
returns `Threw` with the number of the assertion, 0 for a plain `assert`.

Where the code does not do what it is for on all inputs, the lemma says exactly when it does:

- `woCompare` throws when it comes to a Date on the left of a Timestamp; a double equal to two
  different NumberLongs, such as that of 2^53 and 2^53 + 1, breaks its transitivity. On any documents
  where the comparisons come to neither it is a total preorder, though Dates and Timestamps occur in
  other places.
- With a key pattern shorter than the fields two documents agree on, `woCompare` runs off the end
  of the pattern and asserts, where the bit mask goes on. A key pattern orders exactly the documents
  with no more fields than it has.
- `equal` asserts when the right-hand side ends where the left has an Undefined named "".
- `valid` rejects a code with scope whose code has a NUL inside, although the builder writes it.
- `more` answers false, with results still to come, after an empty reply that was not the last. A
  cursor is the plain list of its results exactly when no empty reply comes before results still
  wanted.
- A host list that names a host twice can hide a removal, and, once the nodes match it, makes every
  further `_checkHosts` throw. For distinct nodes and a list of known hosts the answer is right exactly
  when the length of the list and the number of its different hosts both equal the number of nodes,
  or neither does.
- `PoolForHost::flush` and `getStaleConnections` turn the stack upside down. The connection taken
  next stays the same exactly when the slot has at most one live one. From a stack filled in the
  order of time, as `done` fills it, the next is then the one idle longest; a second cleanup turns
  the stack back.
- `sha256` pads wrongly when the length modulo 64 exceeds 55, and its text drops the leading zeros
  of each word, so it may be short and ambiguous. `mynum` says it expects a big-endian machine; what
  it computes is right on a little-endian one, which is what the model has.
- Storing a stream whose length is a multiple of the chunk size leaves an empty chunk that no one
  reads.
- A property's profit gathers while it is on sale: a buyer's first draw counts from the last draw
  before. It is just the profit since the purchase exactly when there is none or no whole period
  more.

Modelling conventions: `memcmp` and `strcmp` give the difference of the first bytes that differ;
32-bit words are integers below 2^32 with the bitwise operations written out (`Words`); doubles are
IEEE 754 bit fields whose values are extended reals; the server of a cursor is the list of its
replies, the secondaries and the master of a lazy query are the outcomes of the attempts on them,
and times are parameters.

## Model

| member | source | states |
|---|---|---|
| BsonFormat.ElementSizeOfEnc | freshcity.dependency.mongoclient/bson/bson-inl.h:602-666 | whatever follows an element in the buffer, the size `BSONElement::size` computes from its bytes is the size it was written with, for every type |
| BsonFormat.ParseDocOfEnc | freshcity.dependency.mongoclient/bson/bsonobj.h:44-70 | reading the bytes of a document back gives the same types, names and values in the same order, nested to any depth, and reads nothing beyond the counted size |
| BsonFormat.EncDocInjective | freshcity.dependency.mongoclient/bson/bsonobj.h:44-70 | two documents with the same bytes are the same document |
| BsonBuilder.BufBuilder.Grow | freshcity.dependency.mongoclient/bson/util/builder.h:189-210 | room for n more bytes: nothing already in the buffer changes, and it throws exactly when the new capacity would exceed 64 MB |
| BsonBuilder.BufBuilder.AppendBuf | freshcity.dependency.mongoclient/bson/util/builder.h:168-170 | the bytes follow what was there, and it cannot throw while the doubled size fits the limit |
| BsonBuilder.BufBuilder.SetLen | freshcity.dependency.mongoclient/bson/util/builder.h:184-184 | the contents are cut to the new length |
| BsonBuilder.BSONObjBuilder.Append | freshcity.dependency.mongoclient/bson/bsonobjbuilder.h:196-513 | each of the append functions adds exactly the encoding of one element, whatever the buffer held |
| BsonBuilder.BSONObjBuilder.Done | freshcity.dependency.mongoclient/bson/bsonobjbuilder.h:648-661 | the open object becomes a finished one, its size patched in place; a second call changes nothing |
| BsonBuilder.BSONObjBuilder.AsTempObj | freshcity.dependency.mongoclient/bson/bsonobjbuilder.h:569-574 | hands out what stands in the buffer from the object on, with its size set and the end byte, and leaves the builder open; nothing but the size changes, also while a child is open |
| BsonBuilder.PeekIsDoc | freshcity.dependency.mongoclient/bson/bsonobjbuilder.h:569-574 | with no child open that is the object as it stands |
| BsonBuilder.BSONObjBuilder.Run | freshcity.dependency.mongoclient/bson/bsonobjbuilder.h:97-99 | any script of puts, nested children and peeks, at this builder or at any it is a child of, leaves it open with exactly the fields of the script added; of the bytes before it only the sizes of those builders change |
| BsonBuilder.BSONObjBuilder.RunChild | freshcity.dependency.mongoclient/bson/bsonobjbuilder.h:168-193 | a child object or array started in the parent's buffer, built and finished there, is one more field of the parent |
| BsonBuilder.BSONObjBuilder.AppendObject | freshcity.dependency.mongoclient/bson/bsonobjbuilder.h:135-182 | appending a finished object or array adds it as one field |
| BsonBuilder.BuildInPlace | freshcity.dependency.mongoclient/bson/bsonobjbuilder.h:89-99 | an object built with its children in the shared buffer has the bytes of its document, and building succeeds if it fits the size limit |
| BsonBuilder.BuildByCopying | freshcity.dependency.mongoclient/bson/bsonobjbuilder.h:135-140 | so has one built by making each child on its own and copying it in |
| BsonBuilder.BothWays | freshcity.dependency.mongoclient/bson/bsonobjbuilder.h:135-193 | both ways give the same bytes, whatever is peeked at in between and at whatever level, and they read back as the document of the script |
| BsonExamples.HelloWorld | freshcity.dependency.mongoclient/bson/bsonobj.h:44-70 | the first example of bsonspec.org, byte for byte |
| BsonExamples.Awesome | freshcity.dependency.mongoclient/bson/bsonobj.h:44-70 | and the second, an array with a string, a double and an int in it |
| BsonIterator.BSONObjIterator.constructor | freshcity.dependency.mongoclient/bson/bsonobjiterator.h:38-46 | starts at the first element and ends at the EOO byte the patched size counts |
| BsonIterator.BSONObjIterator.Next | freshcity.dependency.mongoclient/bson/bsonobjiterator.h:66-71 | gives each element in order, then the EOO element once, then asserts |
| BsonIterator.BSONObjIterator.NextChecked | freshcity.dependency.mongoclient/bson/bsonobjiterator.h:60-65 | with the end checked it gives the same |
| BsonIterator.CheckedSizeOfEnc | freshcity.dependency.mongoclient/bson/bson-inl.h:520-600 | for well-formed elements the bounds-checked size is the unchecked one |
| BsonIterator.CheckedSizeAsserts | freshcity.dependency.mongoclient/bson/bson-inl.h:520-600 | on any bytes: a name without end is an assertion, and so is any type with a size of its own when the four bytes of it are not there, each with its number, and so is an unknown type |
| BsonIterator.ValidateCode | freshcity.dependency.mongoclient/bson/bson-inl.h:481-518 | a code with scope passes `validate` exactly when its code has no NUL inside |
| BsonIterator.NulInCodeRejected | freshcity.dependency.mongoclient/bson/bson-inl.h:481-518 | the bytes of a scope with a NUL for code do not |
| BsonIterator.IsValid | freshcity.dependency.mongoclient/db/jsobj.cpp:406-432 | a built object within the size limit is valid exactly when every code with scope in it, at any depth, has NUL-free code |
| BsonIterator.ValidStringIff | freshcity.dependency.mongoclient/bson/bson-inl.h:481-518 | on any bytes `validate` passes a string exactly when its size counts a text that ends in a NUL, with none before |
| BsonIterator.ValidScopeIff | freshcity.dependency.mongoclient/bson/bson-inl.h:481-518 | and a code with scope exactly when it is a size, NUL-free code and the size of a document with which the first agrees |
| BsonIterator.Elems | freshcity.dependency.mongoclient/bson/bson-inl.h:823-827 | collects exactly the elements, in order |
| Numbers.RoundLongMonotone | freshcity.dependency.mongoclient/bson/bsonelement.h:535-546 | casting 64-bit integers to double (half to even, 53 bits) never reverses their order |
| Numbers.DoubleOfLongValue | freshcity.dependency.mongoclient/bson/bsonelement.h:535-546 | the value a large integer is cast to is one some double has |
| Numbers.RoundedToNearest | freshcity.dependency.mongoclient/bson/bsonelement.h:535-546 | no multiple of the spacing of doubles at its size is nearer to the integer than the value it is cast to, and of two as near it is the even one |
| Numbers.SmallIntegers | freshcity.dependency.mongoclient/bson/bsonelement.h:535-546 | every integer below 2^53 in size, of either sign, is the value of a double |
| Numbers.OrderedAsBits | freshcity.dependency.mongoclient/bson/bsonelement.h:535-546 | positive doubles grow with their exponent and fraction bits |
| BsonOrder.TextLaws | freshcity.dependency.mongoclient/bson/bson-inl.h:40-151 | the comparison of strings, symbols and code, NULs included, is antisymmetric in sign and transitive |
| BsonMeaning.TypeRankDecides | freshcity.dependency.mongoclient/bson/bsonelement.h:442-485 | values of different types compare as the types do: MinKey, EOO and Undefined, Null, numbers, texts, Object, Array, BinData, OID, Bool, times, RegEx, DBRef, Code, CodeWScope, MaxKey |
| BsonMeaning.ValueSign | freshcity.dependency.mongoclient/bson/bson-inl.h:40-151 | two values of one canonical type compare below, equal or above just as the bytes, numbers, times or fields they hold do: texts by the first byte that differs or the shorter first, integers and dates with their sign, timestamps without, other numbers as doubles with NaN least, binary data by length, subtype and bytes |
| BsonMeaning.ElementSign | freshcity.dependency.mongoclient/bson/bson-inl.h:154-168 | two elements by type, then name where it is asked for, then value |
| BsonMeaning.DocSign | freshcity.dependency.mongoclient/db/jsobj.cpp:434-508 | two embedded documents by the first fields that differ, else the one with fewer first |
| BsonMeaning.OrderedSign | freshcity.dependency.mongoclient/db/jsobj.cpp:434-464 | with an Ordering the first unequal field decides, the other way round exactly where its bit is set |
| BsonMeaning.KeyedSign | freshcity.dependency.mongoclient/db/jsobj.cpp:467-508 | with a key pattern the other way round exactly where the field of the pattern at its place is a negative number |
| BsonMeaning.NoDifference | freshcity.dependency.mongoclient/db/jsobj.cpp:434-508 | where no field differs the document with fewer fields comes first, whatever the directions |
| BsonMeaning.DescendsIff | freshcity.dependency.mongoclient/bson/ordering.h:56-70 | a field of a key pattern descends exactly when it is an integer below zero or a double with its sign bit set that is neither zero nor NaN |
| BsonOrder.NumericLawsIff | freshcity.dependency.mongoclient/bson/bson-inl.h:40-151 | so is that of any three numbers, unless two are different NumberLongs that round to one double and the third is another type of number with just that value; then it is not |
| BsonOrder.FlatLaws | freshcity.dependency.mongoclient/bson/bson-inl.h:40-151 | so is the comparison of any three values of one canonical type that hold no document, if no Date is left of a Timestamp and the numbers do not clash |
| BsonOrder.ThrowsIff | freshcity.dependency.mongoclient/db/jsobj.cpp:434-508 | a comparison of two documents asserts exactly when they agree on more fields than the key pattern has; else it throws 13111 exactly when it comes to a Date on the left facing a Timestamp, at any depth, everything before being equal; else it answers |
| BsonOrder.ElementLaws | freshcity.dependency.mongoclient/bson/bson-inl.h:154-168 | so is that of any three elements, by canonical type, then name if asked, then value, if no Date meets a Timestamp and no numbers clash where the comparisons come to |
| BsonOrder.DocLaws | freshcity.dependency.mongoclient/db/jsobj.cpp:434-508 | so is that of any three documents, nested to any depth, for any mask or key pattern that does not run out and with or without names, under the same condition on the places the comparisons come to; Dates and Timestamps may both occur elsewhere |
| BsonOrder.PreorderIffApart | freshcity.dependency.mongoclient/db/jsobj.cpp:434-508 | on any set of documents whose numbers do not clash, `woCompare` with an Ordering or key pattern is a total preorder if and only if no Date in one meets a Timestamp in another and none has more fields than the key pattern |
| BsonOrder.TotalPreorderIffSound | freshcity.dependency.mongoclient/db/jsobj.cpp:434-508 | on all documents that certain NumberLongs, Dates and Timestamps may occur in, it is a total preorder if and only if there is no key pattern, no two of the NumberLongs round to the same double, and Dates and Timestamps are not both allowed |
| BsonOrder.CollisionBreaksTransitivity | freshcity.dependency.mongoclient/bson/bson-inl.h:40-151 | two NumberLongs with one double between them break transitivity |
| BsonOrder.CollisionExists | freshcity.dependency.mongoclient/bson/bson-inl.h:40-151 | there are such: 2^53 and 2^53 + 1 |
| BsonOrdering.Make | freshcity.dependency.mongoclient/bson/ordering.h:56-70 | from the bytes of a key pattern, `get(i)` of the word it makes is -1 exactly where field i is a negative number, and it throws beyond 32 fields |
| BsonOrdering.GetOfMake | freshcity.dependency.mongoclient/bson/ordering.h:38-44 | `get(i)` is -1 exactly where the i-th field of the key pattern descends |
| BsonOrdering.OrderingRefinesKey | freshcity.dependency.mongoclient/db/jsobj.cpp:434-508 | for key patterns of at most 32 fields the bit mask gives what the key pattern gives if and only if the key is empty or the documents do not agree on more fields than it has |
| BsonOrdering.KeyRunsOut | freshcity.dependency.mongoclient/db/jsobj.cpp:467-508 | where they do agree, the key pattern's iterator asserts past its end |
| BsonOrder.ShortDocsDoNotRunOver | freshcity.dependency.mongoclient/db/jsobj.cpp:467-508 | which cannot happen when either document has no more fields than the key |
| BsonEquality.WoCompareOrdered | freshcity.dependency.mongoclient/db/jsobj.cpp:434-464 | the loop over both objects' bytes, shifting the mask, computes the comparison whose sign `OrderedSign` and `NoDifference` give |
| BsonEquality.WoCompareByKey | freshcity.dependency.mongoclient/db/jsobj.cpp:467-508 | so does the loop that steps through a key pattern as well, with the sign of `KeyedSign` and `NoDifference` |
| BsonEquality.Equal | freshcity.dependency.mongoclient/bson/bson-inl.h:195-207 | the loop over both objects' bytes computes `EqualDocs`, past the end of the right-hand side too |
| BsonEquality.EqualIffCompareZero | freshcity.dependency.mongoclient/bson/bson-inl.h:195-207 | `equal` is true exactly when `woCompare` without a key is 0, and throws exactly when that throws or the right-hand side ends where the left has an Undefined named "" |
| BsonEquality.CompareSelf | freshcity.dependency.mongoclient/db/jsobj.cpp:434-508 | any document compares equal to itself, unless it has more fields than the key pattern, when the comparison asserts |
| BsonEquality.ShortKeyAsserts | freshcity.dependency.mongoclient/db/jsobj.cpp:467-508 | so does a document of two fields, compared with itself by a key of one |
| BsonEquality.UndefinedAgainstNothing | freshcity.dependency.mongoclient/bson/bson-inl.h:195-207 | a document of one nameless Undefined against the empty one: `equal` asserts where `woCompare` answers 1 |
| BsonEquality.BinaryEqualImpliesBoth | freshcity.dependency.mongoclient/bson/bsonobj.h:316-322 | `binaryEqual` holds exactly for the same document, and implies equality under `equal` and `woCompare` |
| BsonDotted.FindField | freshcity.dependency.mongoclient/bson/bson-inl.h:264-272 | finds the first field of the name, or EOO, in an object's bytes |
| BsonDotted.GetFieldFirst | freshcity.dependency.mongoclient/bson/bson-inl.h:264-272 | that is the first field of the name, and EOO only where no field has it |
| BsonDotted.FlattenListsLeaves | freshcity.dependency.mongoclient/db/jsobj.cpp:864-877 | the flattened object lists exactly the values that are no Objects, depth first, each under the names on the way to it joined by dots |
| BsonDotted.LookupFindsLeaf | freshcity.dependency.mongoclient/bson/bson-inl.h:775-793 | with dot-free names unique at each level, looking up a listed name gives back that leaf |
| BsonDotted.LookupWalks | freshcity.dependency.mongoclient/bson/bson-inl.h:775-793 | where no name has a dot, looking up a path joined by dots walks it through objects and arrays, and gives EOO exactly where it leads nowhere |
| BsonDotted.AppendAs | freshcity.dependency.mongoclient/bson/bsonobjbuilder.h:126-132 | copies the type and value bytes of an element under a new name, and cannot throw while twice the size of the object fits the buffer limit |
| BsonDotted.Nested2Dotted | freshcity.dependency.mongoclient/db/jsobj.cpp:864-877 | the recursion over the bytes of the object appends exactly the flattened fields to the builder, and cannot throw while twice the size of the result fits the buffer limit |
| Cursor.NextBatchSize | freshcity.dependency.mongoclient/client/dbclientcursor.cpp:29-38 | the batch size when that is positive and below the limit, or when there is no limit; else the limit |
| Cursor.DBClientCursor.constructor | freshcity.dependency.mongoclient/client/dbclientcursor.h:125-139 | a limit counts only for cursors that are not tailable, and a batch size of one becomes two |
| Cursor.DBClientCursor.DataReceived | freshcity.dependency.mongoclient/client/dbclientcursor.cpp:146-178 | a reply replaces the batch; a lost cursor throws 13127 unless tailable; a tailable one keeps its id, or has the id of the reply once lost |
| Cursor.DBClientCursor.Init | freshcity.dependency.mongoclient/client/dbclientcursor.cpp:54-70 | the state after the first request and reply, whatever the reply; without one it gives false and changes nothing else |
| Cursor.StartsWithAll | freshcity.dependency.mongoclient/client/dbclientcursor.cpp:54-70 | that state stands for all results of the query, up to the limit |
| Cursor.DBClientCursor.RequestMore | freshcity.dependency.mongoclient/client/dbclientcursor.cpp:101-133 | takes what the batch brought off the limit; something is always left to ask for, so the assertion on it cannot fire, and the size asked for lies within the limit |
| Cursor.DBClientCursor.More | freshcity.dependency.mongoclient/client/dbclientcursor.cpp:181-198 | its answer and the whole state after it, the cursor id included, for any replies; it throws exactly when it fetches and the cursor is lost |
| Cursor.DBClientCursor.Next | freshcity.dependency.mongoclient/client/dbclientcursor.cpp:200-215 | gives what was put back last, else the next of the batch, and throws at the end of a batch when `more` was not asked |
| Cursor.DBClientCursor.PutBack | freshcity.dependency.mongoclient/client/dbclientcursor.h:69-69 | what is put back comes next |
| Cursor.DBClientCursor.ItCount | freshcity.dependency.mongoclient/client/dbclientcursor.h:98-105 | counts all that come before an empty reply, up to the limit, and terminates |
| Cursor.HidesIff | freshcity.dependency.mongoclient/client/dbclientcursor.cpp:181-198 | `more` misses some of the remaining results if and only if an empty reply comes before results still wanted; else it misses none |
| Cursor.Run | freshcity.dependency.mongoclient/client/dbclientcursor.cpp:181-215 | any run of takes and put-backs is that of the pure state machine, and nothing throws, for any replies of a server that answers |
| Cursor.RefinesIff | freshcity.dependency.mongoclient/client/dbclientcursor.cpp:181-215 | all such runs give what they would on the plain list of results if and only if no empty reply comes before results still wanted, within the limit |
| Cursor.EmptyReplyHides | freshcity.dependency.mongoclient/client/dbclientcursor.cpp:181-198 | three takes over the replies [10], [], [20] yield 10, nothing, 20 |
| ReplicaSet.FindFirst | freshcity.dependency.mongoclient/client/dbclient_rs.cpp:689-699 | `_find` gives the index of the first node of an address, or -1 if there is none |
| ReplicaSet.FromListsEachOnce | freshcity.dependency.mongoclient/client/dbclient_rs.cpp:270-293 | a round names every eligible secondary once and nothing else, from wherever it starts |
| ReplicaSet.ReplicaSetMonitor.GetSlave | freshcity.dependency.mongoclient/client/dbclient_rs.cpp:270-293 | the node it names is up, a secondary, not hidden and not the master, is the first such of the round and goes last; only when no node is so does it name the known master, else the first node, else assert |
| ReplicaSet.ReplicaSetMonitor.GetSlaves | freshcity.dependency.mongoclient/client/dbclient_rs.cpp:270-293 | k calls in a row name the next k secondaries of the round once each, and a full round leaves it as it was |
| ReplicaSet.ReplicaSetMonitor.GetSlaveAfter | freshcity.dependency.mongoclient/client/dbclient_rs.cpp:239-268 | stays with the previous choice while it is up, a secondary and not hidden, else takes the next |
| ReplicaSet.ReplicaSetMonitor.HostDiff | freshcity.dependency.mongoclient/client/dbclient_rs.cpp:354-378 | the hosts no node has, in the order of the set, and the indices of the nodes to go, ascending |
| ReplicaSet.ReplicaSetMonitor.ShouldChangeHosts | freshcity.dependency.mongoclient/client/dbclient_rs.cpp:380-408 | true exactly for an unknown host or another number of hosts |
| ReplicaSet.ReplicaSetMonitor.EraseAll | freshcity.dependency.mongoclient/client/dbclient_rs.cpp:441-446 | erasing by descending index leaves exactly the nodes that stay, as they were and in their order |
| ReplicaSet.ReplicaSetMonitor.CheckHosts | freshcity.dependency.mongoclient/client/dbclient_rs.cpp:410-470 | reports and leaves the node list as `Checked` says; the master and next-secondary indices stay |
| ReplicaSet.ReconciledMatches | freshcity.dependency.mongoclient/client/dbclient_rs.cpp:410-470 | after a change there is one node for each reported host and no other |
| ReplicaSet.ReconciledNodes | freshcity.dependency.mongoclient/client/dbclient_rs.cpp:410-470 | every node of the new list is one there was, unchanged, or a new one that counts as up and nothing else |
| ReplicaSet.CheckHostsRightIff | freshcity.dependency.mongoclient/client/dbclient_rs.cpp:380-470 | `changed` is right, the nodes match the hosts and nothing throws, if and only if a host is unknown or the number of hosts tells truly whether the nodes match already |
| ReplicaSet.CheckHostsRightIffCounts | freshcity.dependency.mongoclient/client/dbclient_rs.cpp:380-470 | for nodes without duplicates that is: a host is unknown, or the list is as long as the nodes just when it names as many different hosts |
| ReplicaSet.DistinctListsAreRight | freshcity.dependency.mongoclient/client/dbclient_rs.cpp:380-470 | so it is right whenever neither the nodes nor the hosts have duplicates |
| ReplicaSet.CheckingAgain | freshcity.dependency.mongoclient/client/dbclient_rs.cpp:410-470 | reporting the same hosts again is a no-op if they are distinct; otherwise it throws |
| ReplicaSet.DuplicatesHideARemoval | freshcity.dependency.mongoclient/client/dbclient_rs.cpp:380-408 | a host named twice can hide one that has gone |
| LazyRetry.DBClientReplicaSet.Say | freshcity.dependency.mongoclient/client/dbclient_rs.cpp:924-964 | the attempt that gets through, how many were made, and the lazy state left, for queries secondaries may serve and for all else |
| LazyRetry.DBClientReplicaSet.CheckResponse | freshcity.dependency.mongoclient/client/dbclient_rs.cpp:980-1031 | asks for a retry exactly when a secondary query came back as "not master or secondary" or unusable and retries are left, and drops the connection it came from |
| LazyRetry.NotSecondary | freshcity.dependency.mongoclient/client/dbclient_rs.cpp:980-1031 | an answer means the server is no secondary when there is no usable one, or its only document has `$err` and the int code 13436; another code or a missing one does not, and one that is no int throws 13111 |
| LazyRetry.DBClientReplicaSet.LazyQuery | freshcity.dependency.mongoclient/client/dbclient_rs.cpp:924-1031 | say and checkResponse together are the plain loop of three secondaries, then the master, whose answer stands: at most three attempts, at most one message to the master, and that one last |
| ConnectionPool.ServerNameCompare | freshcity.dependency.mongoclient/client/connpool.cpp:327-351 | orders names lexicographically by signed char up to a slash or NUL |
| ConnectionPool.PoolKeyCompare | freshcity.dependency.mongoclient/client/connpool.cpp:353-361 | orders keys by name, then timeout |
| ConnectionPool.KeysAreSlots | freshcity.dependency.mongoclient/client/connpool.cpp:327-361 | the key order is a strict weak order, and keys it does not tell apart are exactly those with the same name up to the slash and the same timeout |
| ConnectionPool.ExpiredAbove | freshcity.dependency.mongoclient/client/connpool.cpp:112-115 | of a stack, the one to be given has been idle under 1800 seconds and every one above it 1800 or more; when none is to be given, all have |
| ConnectionPool.PoolForHost.Done | freshcity.dependency.mongoclient/client/connpool.cpp:39-47 | pushes the connection with its time, or destroys it at the cap of 50 |
| ConnectionPool.PoolForHost.Get | freshcity.dependency.mongoclient/client/connpool.cpp:49-70 | pops and destroys the connections on top idle 1800 seconds or more and gives the one below them, idle less, throwing exactly when its timeout is not the key's |
| ConnectionPool.PoolForHost.Flush | freshcity.dependency.mongoclient/client/connpool.cpp:72-85 | keeps every connection and turns the stack upside down |
| ConnectionPool.PoolForHost.GetStaleConnections | freshcity.dependency.mongoclient/client/connpool.cpp:87-104 | takes out exactly the connections idle 1800 seconds or more, from the top down, and turns the rest upside down |
| ConnectionPool.KeptAndStale | freshcity.dependency.mongoclient/client/connpool.cpp:87-104 | what is kept is exactly what of the stack has been idle under 1800 seconds, what is taken out exactly the rest |
| ConnectionPool.KeptIsReversed | freshcity.dependency.mongoclient/client/connpool.cpp:87-104 | those kept are the live ones in reverse order |
| ConnectionPool.DBConnectionPool.TakeIdle | freshcity.dependency.mongoclient/client/connpool.cpp:135-140 | takes the connection nearest the top of its slot idle under 1800 seconds, destroys exactly those above it, each idle at least that long, each once, and never throws for the timeout |
| ConnectionPool.DBConnectionPool.Get | freshcity.dependency.mongoclient/client/connpool.cpp:181-202 | a connection idle under 1800 seconds moves to the client, or where every one of the slot is idle longer a new one does, or it throws: 13071 for an invalid host, 11002 where none is to be had; those above it, idle 1800 seconds or more, are destroyed; no other connection moves |
| ConnectionPool.DBConnectionPool.Release | freshcity.dependency.mongoclient/client/connpool.cpp:204-212 | a connection held moves to the top of the slot of its timeout by now, or is destroyed when failed or over the cap |
| ConnectionPool.DBConnectionPool.Flush | freshcity.dependency.mongoclient/client/connpool.cpp:219-225 | every idle connection stays idle in its slot |
| ConnectionPool.DBConnectionPool.TaskDoWork | freshcity.dependency.mongoclient/client/connpool.cpp:364-385 | destroys exactly the connections idle 1800 seconds or more, each once, and keeps every other |
| ConnectionPool.SameNextIff | freshcity.dependency.mongoclient/client/connpool.cpp:72-104 | after a flush or a cleanup the connection taken next is the one taken before if and only if the slot has at most one live connection |
| ConnectionPool.TurnedTakesIdleLongest | freshcity.dependency.mongoclient/client/connpool.cpp:72-104 | in a stack filled in the order of time it is then the live connection idle longest |
| ConnectionPool.CleanupTwice | freshcity.dependency.mongoclient/client/connpool.cpp:87-104 | another cleanup makes the former one next again |
| GridFs.GridFS.StoreData | freshcity.dependency.mongoclient/client/gridfs.cpp:68-86 | stores exactly the full chunks and what is left over, numbered from zero, and touches no other file's |
| GridFs.GridFS.StoreStream | freshcity.dependency.mongoclient/client/gridfs.cpp:89-130 | reads the stream to its end and stores full chunks and what is left over, even if nothing |
| GridFs.CutJoins | freshcity.dependency.mongoclient/client/gridfs.h:177-179 | the chunks joined are the data, none is empty or too long, and there are as many as `getNumChunks` counts |
| GridFs.NumChunksIs | freshcity.dependency.mongoclient/client/gridfs.h:177-179 | `getNumChunks` is the least number of chunks that hold the length |
| GridFs.CutStreamIsCut | freshcity.dependency.mongoclient/client/gridfs.cpp:89-130 | the stream's chunks are the same but for one empty chunk more exactly on exact multiples of the chunk size |
| GridFs.Write | freshcity.dependency.mongoclient/client/gridfs.cpp:203-228 | writes the chunks below the count in order and gives the length, or throws at the first that is missing |
| GridFs.StoredReadsBack | freshcity.dependency.mongoclient/client/gridfs.cpp:203-228 | a file stored either way reads back as it was, every chunk below the count is there, and the extra empty chunk lies just beyond it |
| GridFs.RoundTrip | freshcity.dependency.mongoclient/client/gridfs.cpp:68-228 | storing and writing out gives the original bytes, for any positive chunk size |
| Sha256.FromDecimal | freshcity.server.gamemode/basic_algorithm_string.cpp:85-95 | gives the hexadecimal digits of a word, highest first, without leading zeros |
| Sha256.DigitsDecode | freshcity.server.gamemode/basic_algorithm_string.cpp:85-95 | they decode to the word, and the first is not zero |
| Sha256.HexLength | freshcity.server.gamemode/basic_algorithm_string.cpp:228-232 | the text has 64 digits for eight words if and only if no word starts with a zero digit |
| Sha256.HexDecodes | freshcity.server.gamemode/basic_algorithm_string.cpp:228-232 | a text of full length tells the words |
| Sha256.HexAmbiguous | freshcity.server.gamemode/basic_algorithm_string.cpp:228-232 | a shorter one need not: different words have the same text |
| Sha256.MyNum | freshcity.server.gamemode/basic_algorithm_string.cpp:138-148 | the length in eight bytes, highest first, the upper four zero |
| Sha256.PadMessage | freshcity.server.gamemode/basic_algorithm_string.cpp:177-190 | the padding with 32-bit sizes as the code computes them |
| Sha256.PadRightIff | freshcity.server.gamemode/basic_algorithm_string.cpp:177-190 | it is the padding of the standard if and only if the message is under 2^29 bytes and its length modulo 64 at most 55 |
| Sha256.Pads56Wrongly | freshcity.server.gamemode/basic_algorithm_string.cpp:177-190 | a message of 56 bytes is padded to half a gigabyte, where the standard has 128 bytes |
| Sha256.MakeBlock | freshcity.server.gamemode/basic_algorithm_string.cpp:108-119 | the words of a string, first byte highest |
| Sha256.Split | freshcity.server.gamemode/basic_algorithm_string.cpp:130-136 | the padded message cut into blocks of sixteen words |
| Words.RotRTurns | freshcity.server.gamemode/basic_algorithm_string.cpp:150-151 | the rotation macro brings the low bits back at the top |
| Sha256.CodeMajIsMaj | freshcity.server.gamemode/basic_algorithm_string.cpp:157-159 | `maj` as written agrees with the standard's |
| Fips180Meaning.ChChooses | freshcity.server.gamemode/basic_algorithm_string.cpp:153-155 | bit i of `ch` is that of y where x has the bit, and that of z elsewhere |
| Fips180Meaning.MajIsMajority | freshcity.server.gamemode/basic_algorithm_string.cpp:157-159 | bit i of `maj` is set when at least two of the three are |
| Fips180Meaning.BigSigma0Bits | freshcity.server.gamemode/basic_algorithm_string.cpp:161-163 | bit i is set when an odd number of the bits 2, 13 and 22 places up, around the word, are |
| Fips180Meaning.BigSigma1Bits | freshcity.server.gamemode/basic_algorithm_string.cpp:165-167 | likewise 6, 11 and 25 places up |
| Fips180Meaning.SmallSigma0Bits | freshcity.server.gamemode/basic_algorithm_string.cpp:169-171 | likewise 7 and 18 places up, around the word, and 3 places up within it |
| Fips180Meaning.SmallSigma1Bits | freshcity.server.gamemode/basic_algorithm_string.cpp:173-175 | likewise 17 and 19 places up, around the word, and 10 places up within it |
| Fips180Meaning.ConsecutivePrimes | freshcity.server.gamemode/basic_algorithm_string.cpp:97-106 | the numbers behind the constants are the first 64 primes, in order, with none between |
| Fips180Meaning.KIsCubeRoots | freshcity.server.gamemode/basic_algorithm_string.cpp:97-106 | each round constant is the first 32 bits of the fraction of the cube root of its prime |
| Fips180Meaning.H0IsSquareRoots | freshcity.server.gamemode/basic_algorithm_string.cpp:192-192 | and the initial hash values those of the square roots of the first eight |
| Sha256.Expand | freshcity.server.gamemode/basic_algorithm_string.cpp:196-203 | the message schedule |
| Sha256.Step | freshcity.server.gamemode/basic_algorithm_string.cpp:210-221 | moving the registers up in place is one round |
| Sha256.CompressBlock | freshcity.server.gamemode/basic_algorithm_string.cpp:195-226 | one block makes the hash value into the next |
| Sha256.Sha256 | freshcity.server.gamemode/basic_algorithm_string.cpp:177-233 | for messages under 2^29 - 64 bytes with length modulo 64 at most 55 the hash value is that of FIPS 180-4, whose functions and constants `Fips180Meaning` tells bit by bit, and the text its hexadecimal |
| Hooks.Hook.Install | freshcity.dependency.sampgdk/hook.cpp:48-69 | keeps the five bytes at the source and puts a jump over them, once |
| Hooks.Hook.InstallAt | freshcity.dependency.sampgdk/hook.cpp:71-79 | does so at a given source, unless installed already |
| Hooks.Hook.Remove | freshcity.dependency.sampgdk/hook.cpp:81-89 | puts the kept bytes back |
| Hooks.JumpBytes | freshcity.dependency.sampgdk/hook.cpp:48-69 | a jump is the byte e9 and, lowest byte first, the distance from the address behind it to the target, modulo 2^32 |
| Hooks.GetTargetAddress | freshcity.dependency.sampgdk/hook.cpp:96-104 | the five bytes of a jump are those of a jump to the address it gives, below 2^32; without a jump it gives 0 |
| Hooks.InstalledLeadsTo | freshcity.dependency.sampgdk/hook.cpp:48-104 | after installation that is the destination modulo 2^32 |
| Hooks.RemoveUndoesInstall | freshcity.dependency.sampgdk/hook.cpp:48-89 | removing a hook just installed leaves memory as it was |
| AmxHooks.AmxHooks.constructor | freshcity.dependency.sampgdk/amxhooks.cpp:58-76 | all four hooks go in, over the original code |
| AmxHooks.AmxHooks.EnterBody | freshcity.dependency.sampgdk/hook.h:47-86 | the guards of a body take its own hook out and put the other of execution and callbacks in |
| AmxHooks.AmxHooks.LeaveBody | freshcity.dependency.sampgdk/hook.h:47-86 | their destructors restore the flags there were before |
| AmxHooks.AmxHooks.Perform | freshcity.dependency.sampgdk/amxhooks.cpp:85-156 | any tree of re-entrant calls leaves every byte of memory and every flag as it found them, and what it intercepts is what the flags alone say |
| AmxHooks.AmxHooks.Execute | freshcity.dependency.sampgdk/amxhooks.cpp:85-156 | an original starts only with its own first bytes in place |
| AmxHooks.RunTells | freshcity.dependency.sampgdk/amxhooks.cpp:103-146 | in any tree of calls the trace accounts for the game mode and the remembered name, plugins are told only of starts and of callbacks of the game mode, and each event fits the state before it |
| AmxHooks.HandledNamesLastSearch | freshcity.dependency.sampgdk/amxhooks.cpp:103-146 | over any run the name plugins are told of a callback by is the one the last hooked search on the game mode asked for, however the calls nest |
| AmxHooks.SearchesSucceed | freshcity.dependency.sampgdk/amxhooks.cpp:103-115 | over any run every hooked search on the game mode is answered with no error, at the index the original gave if it found the function and at -10 if not; every other search is answered as the original answered it |
| AmxHooks.SearchEnds | freshcity.dependency.sampgdk/amxhooks.cpp:103-115 | the last event of a search is its own answer: of its script and name, beside the error and index of the original, and hooked just when the call is intercepted |
| AmxHooks.ExecTellsAndRuns | freshcity.dependency.sampgdk/amxhooks.cpp:119-146 | exactly when plugins are told, of which name and before the original, and exactly when the original runs, once |
| AmxHooks.InterceptedIff | freshcity.dependency.sampgdk/hook.h:47-86 | inside any stack of hook bodies the flags the guards leave intercept execution unless the innermost running body of the two is its own, callbacks likewise, and the other exports unless their body is running |
| AmxHooks.BodiesDecide | freshcity.dependency.sampgdk/amxhooks.cpp:85-156 | in any tree of calls each one, however deep, is intercepted or not by the hook bodies it is made in |
| AmxHooks.AmxHooks.Serve | freshcity.dependency.sampgdk/amxhooks.cpp:85-156 | so calls from outside, over patched memory, give the trace in which the bodies around a call decide |
| PropertyEconomy.Property.Draw | freshcity.server.gamemode/application_data_property.cpp:107-116 | pays the owner the profit of whole periods, and counts as a draw only when it pays |
| PropertyEconomy.Property.Purchase | freshcity.server.gamemode/application_data_property.cpp:118-128 | takes the value from a buyer who can pay, in the order of the checks; the last draw stays |
| PropertyEconomy.Property.Sell | freshcity.server.gamemode/application_data_property.cpp:130-141 | draws, then gives the value back and puts the property on sale, for its owner only |
| PropertyEconomy.Run | freshcity.server.gamemode/application_data_property.cpp:107-141 | any run of draws, purchases and sales by any players is the run of the pure state machine |
| PropertyEconomy.PayoutAtMost | freshcity.server.gamemode/application_data_property.cpp:107-141 | over any run with a clock that does not go back, whoever owns the property, the payout is at most the profit of the whole periods gone by |
| PropertyEconomy.PayoutAtLeast | freshcity.server.gamemode/application_data_property.cpp:107-141 | and it is the profit of whole periods that cover the time up to the last paying draw, less under one period for each such draw |
| PropertyEconomy.FirstDrawIsOwnIff | freshcity.server.gamemode/application_data_property.cpp:107-128 | a buyer's first draw pays for the time since the last draw before the sale; that is the profit since the purchase if and only if there is no profit or no whole period more |
| PropertyEconomy.PaidForTimeOnSale | freshcity.server.gamemode/application_data_property.cpp:107-128 | a property on sale for one period pays its buyer in the minute of the purchase |
| PropertyEconomy.LedgerConstant | freshcity.server.gamemode/application_data_property.cpp:107-141 | over any run the money of all players, with the value if owned, grows by exactly the payout |

## Left out

- BsonIterator.IsValid: only for bytes a builder can make; on malformed bytes it is stated of strings (`ValidStringIff`) and scopes (`ValidScopeIff`), not of whole objects.
- BsonIterator.CheckedSizeOfEnc: a regular expression that runs past the end is one assertion here, where the code has several.
- BsonOrder.DocLaws: one way only for numbers that clash, since fields behind them may happen to differ in an order that fits; the condition is exact for numbers themselves (`NumericLawsIff`) and for all documents of a kind (`TotalPreorderIffSound`).
- BsonEquality.WoCompareOrdered: walks the bytes of both objects at the top level; the values of their elements, embedded objects included, are compared as decoded values by the recursive function.
- BsonEquality.WoCompareByKey: the same.
- BsonEquality.Equal: the same.
- BsonBuilder.BSONObjBuilder.Append: one method for the family of overloads; the value-stream operators, `appendElements`, numbered fields, `genOID` and the builder's destructor are not part of this model.
- BsonBuilder.BSONObjBuilder.Over: the constructor over a parent's buffer is split in two, because a constructor cannot fail: `Over` remembers the offset and `Start` keeps room for the size.
- BsonBuilder.BuildByCopying: makes no peeks; each child is in a buffer of its own, which a peek elsewhere does not touch. What a peek hands out while a child is open has the child unfinished, and nothing is said of reading it.
- Cursor.RefinesIff: cursors that are not tailable, over a server that answers while its cursor lives; what one call does with any other reply is in the contracts of `More` and `DataReceived`.
- Cursor.DBClientCursor.RequestMore: a server that gives no reply at all, the scoped host, exhaust mode, `peek` and the getMore constructor, which leaves the batch size unset.
- ReplicaSet.ReplicaSetMonitor.CheckHosts: one thread at a time, so both checks see the same nodes; the connection to a new node is not modelled, since the node counts as up either way.
- ReplicaSet.HostAndPort: addresses are canonical spellings; filling in the default port is not modelled, nor is what the node checks write into a node's flags.
- LazyRetry.DBClientReplicaSet.Say: which server an attempt reaches, authentication and what a failure tells the monitor; a run ends when the master cannot be reached.
- ConnectionPool.DBConnectionPool.Get: hooks that throw and the counters of `appendInfo`; whether the host parses as a connection string is a parameter, and the overload that takes one, which throws 13328, is not modelled; timeouts are reals, so NaN does not occur; the cap is the default of 50.
- ConnectionPool.PoolForHost: held in the map by value, as in the code, so a pool operation loads it, runs its method and stores it back; connections are addresses with their state in a map.
- GridFs.GridFS.StoreData: `setChunkSize`, whose check admits only 0; the md5 and the other fields of the file object; chunk numbers do not wrap at 2^31.
- GridFs.CutJoins: the rounding up in `getNumChunks` is that of integers, which the doubles agree with below 2^53.
- Sha256.Sha256: messages the padding is wrong for, where the code goes on to index past its blocks; the six functions are passed as values so that proofs do not look inside them.
- Sha256.FromDecimal: base 16, the only one it is called with.
- AmxHooks.AmxHooks.Perform: the stack, parameter count and SYSREQ.D flag of the abstract machine, the table of natives, the permanent `funcidx` hook, and page protection.
- PropertyEconomy.Property.Draw: overflow of 32-bit money, the database update and map markers; `Sell` also reports what its draw paid.
- Distributed locks, `BtreeBucket`, the journal, the sorter, `fromjson` and `EmbeddedBuilder`: their bodies are not in this repository.
- Sockets, locks, logging, authentication and threads: I/O and operating-system objects.
- Dialogs, teams, gang zones, timers and geometry of the game mode: they would only add easy members.
