# BSON and replica-set models of the postgresbson driver

A Dafny model of the BSON core and of the replica-set client of the MongoDB C++
driver 2.4 that postgresbson is built on, with proofs of what that code keeps.

One recursive grammar of BSON documents (version 1.0 of the specification at
bsonspec.org) is the centre: `Bson.Doc` is a document tree, `Bson.EncodeDoc` its
bytes. The validator, the element reader, the field lookup, the object and array
builders and the comparison are each proved against it. The grammar, the validator and the
reader each have their own table of lengths.

- `Bson`: bytes, little-endian numbers, document trees, the encoding.
- `ValidatorMachine`, `ValidatorProof`, `Ending`, `Validator`: validateBSON as a machine
  with an explicit stack of frames; soundness and completeness against the grammar; when
  its loop ends; the loop over a mutable buffer that refines the machine.
- `Reader`, `Decoding`: element sizes and iterators; uniqueness of decoding.
- `Lookup`: getField, getObjectField, getFieldDotted.
- `Builder`, `ArrayBuilder`: BSONObjBuilder with nested builders that share one
  buffer, and BSONArrayBuilder.
- `Layouts`: documents of one field byte by byte, with type codes and lengths as numbers.
- `Doubles`, `Ordering`, `Comparing`, `Ranking`: doubles and longs in eight bytes and the
  conversion between them; woCompare on elements and whole documents; the same on the bytes;
  the order of types and of the values of each type, in terms of codes and bytes.
- `Escape`: JSON string escaping, against the string rules in section 7 of RFC 8259.
- `InitializerGraph`: the dependency graph of global initializers.
- `ParseNumber`: parseNumberFromStringWithBase for every integer type.
- `Cursor`: DBClientCursor over any sequence of server replies.
- `Selection`, `ReadPreference`: the choice of a node for a read.
- `Reconcile`: the update of the host list from an isMaster reply.
- `MonitorProtocol`: the threads of ReplicaSetMonitor as a state machine whose steps
  are the pieces of code between two lock operations.

Objects that the source updates in place are classes; its loops are loops. Replies of
servers, results of connecting, results of initializer functions and the schedule of
threads are parameters, so the results hold for all of them. Integers are unbounded;
where the source's width matters (the 64-bit position of the validator, 32-bit lengths,
the packed frame word, the narrowing from long to int, conversion to double) it is
written out.

Where the code and what is written about it differ, the model follows the code:

- The validator takes a string prefix of zero for an empty value, and a negative one
  moves the position back, which can keep the loop going for ever: it does so exactly when
  it comes back to a position and a state without closing what was open. "Sane lengths" names
  the condition under which a buffer is met by neither: string prefixes at least 1,
  binary lengths from 0 to 2^31 - 2, positions below 2^31. Acceptance means a document
  exactly under this condition.
- The result of the skip over the 12 bytes behind a DBRef string is not looked at; the
  next read finds the end of the buffer instead.
- getFieldDotted finds a field whose own name contains the dots before it follows them.
- woCompare calls itself well ordered. It is transitive exactly on longs that conversion to
  double keeps in order, which fails beyond 2^53, and comparing a Date with a Timestamp
  throws.
- The host list update asserts that something has changed. A list that repeats a host
  can get there with nothing to change.
- The host list update keeps the index of the master valid only as long as connecting to
  a new host does not throw past the one exception type that is caught. When it does,
  members are erased already and the index is not reset yet.
- isCompatible accepts an empty list of tags, for which nothing is selected.

## Model

| member | source | states |
|---|---|---|
| `ValidatorMachine.FrameStackInvariant` | pgbson/mongo-cxx-driver-v2.4/src/mongo/bson/bson_validate.cpp:224-299 | After any number of iterations over any buffer the open frames alternate as nesting demands, so the loop never reads an empty deque and never reaches the "unnested CodeWScope" error. |
| `ValidatorMachine.StepKeepsFrames` | pgbson/mongo-cxx-driver-v2.4/src/mongo/bson/bson_validate.cpp:229-295 | Every one of the six state transitions keeps that shape, whatever the bytes. |
| `ValidatorMachine.StepDecreases` | pgbson/mongo-cxx-driver-v2.4/src/mongo/bson/bson_validate.cpp:229-295 | With sane lengths every iteration consumes bytes or closes a frame: the termination measure of the loop. |
| `ValidatorMachine.RunIsLoop` | pgbson/mongo-cxx-driver-v2.4/src/mongo/bson/bson_validate.cpp:224-299 | The recursive verdict used in the proofs is the outcome of the iterated loop: accepted, rejected for the same reason, or stopped at the first length that is not sane. |
| `ValidatorMachine.OpenFrame` | pgbson/mongo-cxx-driver-v2.4/src/mongo/bson/bson_validate.cpp:107-128 | The packed frame word gives back the start position and the code-with-scope flag it was made from. |
| `ValidatorProof.DocComplete` | pgbson/mongo-cxx-driver-v2.4/src/mongo/bson/bson_validate.cpp:224-299 | Wherever the encoding of a document tree stands, the machine consumes exactly it, on any stack of frames, and looks at exactly its element boundaries. |
| `ValidatorProof.ElementComplete` | pgbson/mongo-cxx-driver-v2.4/src/mongo/bson/bson_validate.cpp:130-222 | The same for one element of any type. |
| `ValidatorProof.CodeWScopeComplete` | pgbson/mongo-cxx-driver-v2.4/src/mongo/bson/bson_validate.cpp:265-294 | The same for code with scope, whose outer length covers a string and a nested document. |
| `ValidatorProof.PlainComplete` | pgbson/mongo-cxx-driver-v2.4/src/mongo/bson/bson_validate.cpp:146-220 | A value without nesting is consumed exactly, whatever its layout. |
| `ValidatorProof.DocSound` | pgbson/mongo-cxx-driver-v2.4/src/mongo/bson/bson_validate.cpp:224-299 | A run that accepts from the beginning of an object has a document tree whose encoding stands there, and goes on accepting behind it. |
| `ValidatorProof.ElementSound` | pgbson/mongo-cxx-driver-v2.4/src/mongo/bson/bson_validate.cpp:130-222 | A run that accepts in front of an element has a name and a value whose encoding stands there. |
| `ValidatorProof.CodeWScopeSound` | pgbson/mongo-cxx-driver-v2.4/src/mongo/bson/bson_validate.cpp:265-294 | A run that accepts at the beginning of code with scope has a code string and a scope document there, with an exact outer length. |
| `ValidatorProof.PlainSound` | pgbson/mongo-cxx-driver-v2.4/src/mongo/bson/bson_validate.cpp:146-220 | A value without nesting that the machine walks over is the encoding of some value of that type. |
| `ValidatorProof.RunRefinesGrammar` | pgbson/mongo-cxx-driver-v2.4/src/mongo/bson/bson_validate.cpp:224-310 | The explicit stack machine accepts if and only if the recursive BSON grammar has a document at the front of the buffer. |
| `ValidatorProof.VisitsAreBoundaries` | pgbson/mongo-cxx-driver-v2.4/src/mongo/bson/bson_validate.cpp:130-222 | The positions at which the validator looks for an element are the element boundaries of the document, in order, nested ones included. |
| `Validator.Buffer.ReadCString` | pgbson/mongo-cxx-driver-v2.4/src/mongo/bson/bson_validate.cpp:45-58 | The read of a C string, in place, refines its specification function. |
| `Validator.Buffer.ReadUTF8String` | pgbson/mongo-cxx-driver-v2.4/src/mongo/bson/bson_validate.cpp:60-80 | The read of a length-prefixed string refines its specification function, unsigned 64-bit wrap-around included. |
| `Validator.Buffer.Skip` | pgbson/mongo-cxx-driver-v2.4/src/mongo/bson/bson_validate.cpp:82-85 | The new position is the old one plus the distance, modulo 2^64; the result tells whether it is inside the buffer. |
| `Validator.ValidateElementInfo` | pgbson/mongo-cxx-driver-v2.4/src/mongo/bson/bson_validate.cpp:130-144 | One element in place: status, new position and next state are those of the machine. |
| `Validator.ValidateValue` | pgbson/mongo-cxx-driver-v2.4/src/mongo/bson/bson_validate.cpp:146-222 | The type dispatch in place; the ignored result of the skip behind a DBRef string included. |
| `Validator.Iterate` | pgbson/mongo-cxx-driver-v2.4/src/mongo/bson/bson_validate.cpp:229-295 | The switch on the state in place: status, frames, position and next state are those of one step of the machine. |
| `Ending.NeverEndsIffRecurs` | pgbson/mongo-cxx-driver-v2.4/src/mongo/bson/bson_validate.cpp:224-299 | The loop never ends if and only if it comes back to a position, a state and a kind of topmost frame without the stack falling below its height in between. |
| `Ending.RecurrenceNeverEnds` | pgbson/mongo-cxx-driver-v2.4/src/mongo/bson/bson_validate.cpp:224-299 | Coming back once is coming back for ever: the same way is gone again over whatever lies deeper on the stack. |
| `Ending.NeverEndingRecurs` | pgbson/mongo-cxx-driver-v2.4/src/mongo/bson/bson_validate.cpp:224-299 | A loop that never ends comes back: infinitely many iterations are lowest from there on, and there are finitely many positions and states. |
| `Ending.MovingOnEnds` | pgbson/mongo-cxx-driver-v2.4/src/mongo/bson/bson_validate.cpp:224-299 | The loop ends on every buffer on which each read moves the position on, whatever the lengths. |
| `Ending.SaneLengthsEnd` | pgbson/mongo-cxx-driver-v2.4/src/mongo/bson/bson_validate.cpp:224-299 | With sane lengths the loop ends. |
| `Ending.NegativePrefixNeverEnds` | pgbson/mongo-cxx-driver-v2.4/src/mongo/bson/bson_validate.cpp:60-80 | Eleven bytes with a string prefix of -7 bring the position back to their own element for ever. |
| `Validator.ValidateBSONIterative` | pgbson/mongo-cxx-driver-v2.4/src/mongo/bson/bson_validate.cpp:224-301 | On any buffer, with any number of iterations: whether the loop is over by then and, if so, OK or the very error the machine reaches. |
| `Validator.ValidateBSON` | pgbson/mongo-cxx-driver-v2.4/src/mongo/bson/bson_validate.cpp:303-310 | On any buffer: once the loop has ended, the buffer starts with a document of the grammar if and only if the result is OK and the lengths met were sane. |
| `Validator.DocumentIffAcceptedAndSane` | pgbson/mongo-cxx-driver-v2.4/src/mongo/bson/bson_validate.cpp:224-310 | The same about the iterated loop: acceptance alone is not enough, acceptance with sane lengths is exact. |
| `Validator.ZeroPrefixAccepted` | pgbson/mongo-cxx-driver-v2.4/src/mongo/bson/bson_validate.cpp:60-80 | A string whose length prefix is zero is accepted although it is no BSON string. |
| `Reader.ValueSizeExact` | pgbson/mongo-cxx-driver-v2.4/src/mongo/bson/bson-inl.h:615-679 | For an encoded value of any type the size rule finds exactly its length. |
| `Reader.ElementSizeExact` | pgbson/mongo-cxx-driver-v2.4/src/mongo/bson/bson-inl.h:615-679 | For an encoded element, type, name, place of the value and total size are read back. |
| `Reader.OnListSteps` | pgbson/mongo-cxx-driver-v2.4/src/mongo/bson/bsonobjiterator.h:36-95 | What an iterator inside a document sees: the next element or, exactly at the end, the EOO byte. |
| `Reader.BSONObjIterator.constructor` | pgbson/mongo-cxx-driver-v2.4/src/mongo/bson/bsonobjiterator.h:36-47 | Position and end for a document with a size and for a null object. |
| `Reader.BSONObjIterator.Next` | pgbson/mongo-cxx-driver-v2.4/src/mongo/bson/bsonobjiterator.h:78-83 | Returns the element at the position and moves by its size; an element of unknown type leaves the position. |
| `Reader.Elems` | pgbson/mongo-cxx-driver-v2.4/src/mongo/bson/bson-inl.h:849-853 | Iteration yields every field of the document once, in order. |
| `Reader.NFields` | pgbson/mongo-cxx-driver-v2.4/src/mongo/bson/bson-inl.h:821-831 | Counts the fields of the document. |
| `Reader.Walk` | pgbson/mongo-cxx-driver-v2.4/src/mongo/bson/bson-inl.h:181-191 | Walking a document with nested iterators visits its element boundaries at every depth. |
| `Reader.WalkAccepted` | pgbson/mongo-cxx-driver-v2.4/src/mongo/bson/bson-inl.h:182-191 | On a buffer the validator accepts, nested iteration visits the same positions as the validator. |
| `Layouts.FixedFieldIff` | pgbson/mongo-cxx-driver-v2.4/src/mongo/bson/bson_validate.cpp:146-176 | For every name and type code of fixed length: a document of that one field is accepted, and its size read right, exactly when the payload has the 0, 1, 4, 8 or 12 bytes of the type; with fewer bytes, or one more, the bytes hold no document. |
| `Layouts.TextField` | pgbson/mongo-cxx-driver-v2.4/src/mongo/bson/bson-inl.h:642-646 | Codes 2, 13 and 14: length with terminator, text, zero; accepted and sized. |
| `Layouts.DBRefField` | pgbson/mongo-cxx-driver-v2.4/src/mongo/bson/bson-inl.h:647-649 | Code 12: a string and twelve bytes; accepted and sized. |
| `Layouts.BinaryField` | pgbson/mongo-cxx-driver-v2.4/src/mongo/bson/bson-inl.h:655-657 | Code 5: length, subtype, bytes; accepted and sized. |
| `Layouts.RegexField` | pgbson/mongo-cxx-driver-v2.4/src/mongo/bson/bson-inl.h:658-667 | Code 11: two C strings; accepted and sized. |
| `Layouts.ObjectField` | pgbson/mongo-cxx-driver-v2.4/src/mongo/bson/bson-inl.h:650-654 | Codes 3 and 4: a document; accepted and sized. |
| `Layouts.CodeWScopeField` | pgbson/mongo-cxx-driver-v2.4/src/mongo/bson/bson-inl.h:650-654 | Code 15: total length, string, document; accepted and sized. |
| `Layouts.PrefixRejected` | pgbson/mongo-cxx-driver-v2.4/src/mongo/bson/bson_validate.cpp:224-310 | No proper beginning of a document is accepted. |
| `Decoding.ValueUnique` | pgbson/mongo-cxx-driver-v2.4/src/mongo/bson/bson-inl.h:615-679 | Two values of one type encoded at one place are the same value. |
| `Decoding.DocUnique` | pgbson/mongo-cxx-driver-v2.4/src/mongo/bson/bsonobj.h:48-73 | Two documents encoded at one place are the same tree: the encoding loses nothing. |
| `Lookup.GetField` | pgbson/mongo-cxx-driver-v2.4/src/mongo/bson/bson-inl.h:265-273 | Returns the element at the offset of the first field with the name; none if and only if the name is not among the field names. |
| `Lookup.FindIsFirst` | pgbson/mongo-cxx-driver-v2.4/src/mongo/bson/bson-inl.h:265-273 | Lookup in the tree gives place and value of the first field of the name. |
| `Lookup.GetObjectField` | pgbson/mongo-cxx-driver-v2.4/src/mongo/bson/bson-inl.h:815-819 | Gives the document of an embedded field, and an empty object otherwise. |
| `Lookup.GetFieldDotted` | pgbson/mongo-cxx-driver-v2.4/src/mongo/bson/bson-inl.h:801-813 | The recursive search returns what the search on the tree says: the whole name first, then what stands behind the first dot. |
| `Lookup.DottedCases` | pgbson/mongo-cxx-driver-v2.4/src/mongo/bson/bson-inl.h:801-813 | Dotted lookup: a field of the whole name; else what the rest finds in the first field of the name before the first dot, if that is an object or array; else none. |
| `Lookup.DottedComposes` | pgbson/mongo-cxx-driver-v2.4/src/mongo/bson/bson-inl.h:801-813 | When no dotted name can be reached, looking up a path in two pieces gives the same as looking up the whole path. |
| `Lookup.ComposesIffClean` | pgbson/mongo-cxx-driver-v2.4/src/mongo/bson/bson-inl.h:801-813 | Looking up in two pieces agrees for all paths if and only if no dotted name can be reached: at the level itself, or inside the first field of some name. |
| `Lookup.DottedNameWins` | pgbson/mongo-cxx-driver-v2.4/src/mongo/bson/bson-inl.h:801-813 | With a dot in a field name it does not: the literal name is found instead. |
| `Builder.BufBuilder.PatchInt` | pgbson/mongo-cxx-driver-v2.4/src/mongo/bson/bsonobjbuilder.h:660-673 | The four bytes read back as the number, modulo 2^32; all other bytes and the length stay. |
| `Builder.BSONObjBuilder.Done` | pgbson/mongo-cxx-driver-v2.4/src/mongo/bson/bsonobjbuilder.h:660-673 | Closes the object: EOO and length are put in, the bytes in front of it stay; a second call changes nothing. |
| `Builder.BSONObjBuilder.AsTempObj` | pgbson/mongo-cxx-driver-v2.4/src/mongo/bson/bsonobjbuilder.h:592-597 | Returns the finished object and leaves the builder open with the same fields; after done() it takes the EOO off again. |
| `Builder.BSONObjBuilder.AppendCodeWScope` | pgbson/mongo-cxx-driver-v2.4/src/mongo/bson/bsonobjbuilder.h:512-520 | Appends the encoding of a code-with-scope element, total size included. |
| `Builder.BSONObjBuilder.AppendBinData` | pgbson/mongo-cxx-driver-v2.4/src/mongo/bson/bsonobjbuilder.h:480-487 | Appends the encoding of a binary element. |
| `Builder.BSONObjBuilder.AppendRegex` | pgbson/mongo-cxx-driver-v2.4/src/mongo/bson/bsonobjbuilder.h:334-340 | Appends the encoding of a regular expression element. |
| `Builder.BSONObjBuilder.AppendDBRef` | pgbson/mongo-cxx-driver-v2.4/src/mongo/bson/bsonobjbuilder.h:460-467 | Appends the encoding of a DBRef element. |
| `Builder.BSONObjBuilder.AppendAs` | pgbson/mongo-cxx-driver-v2.4/src/mongo/bson/bsonobjbuilder.h:91-98 | Copies an element under another name; the value is the same. |
| `Builder.BSONObjBuilder.AppendElements` | pgbson/mongo-cxx-driver-v2.4/src/mongo/bson/bson-inl.h:291-300 | Appends exactly the fields of another document. |
| `Builder.BuildNested` | pgbson/mongo-cxx-driver-v2.4/src/mongo/bson/bsonobjbuilder.h:133-158 | A sub-builder that writes into its parent's buffer leaves the parent with one complete embedded element. |
| `Builder.BuildInto` | pgbson/mongo-cxx-driver-v2.4/src/mongo/bson/bsonobjbuilder.h:592-597 | Fields built one after the other, with any number of temporary objects taken in between, are the encoding of the field list. |
| `Builder.Build` | pgbson/mongo-cxx-driver-v2.4/src/mongo/bson/bsonobjbuilder.h:54-158 | Whatever tree is built top-down through sub-builders and whatever temporary objects are taken on the way, the bytes are its encoding. |
| `Builder.BuildBottomUp` | pgbson/mongo-cxx-driver-v2.4/src/mongo/bson/bsonobjbuilder.h:100-150 | Building the subobjects first and appending them gives the same bytes. |
| `Builder.BuiltIsAccepted` | pgbson/mongo-cxx-driver-v2.4/src/mongo/bson/bson_validate.cpp:303-310 | What the builder makes is accepted by the validator and decodes only to the tree it was made from. |
| `ArrayBuilder.ArrayDocSnoc` | pgbson/mongo-cxx-driver-v2.4/src/mongo/bson/bsonobjbuilder.h:686-729 | Appending one value appends the element named by the next position. |
| `ArrayBuilder.ArrayDocFields` | pgbson/mongo-cxx-driver-v2.4/src/mongo/bson/bsonobjbuilder.h:686-729 | The names of a built array are 0, 1, 2, ... and its values are the values appended. |
| `ArrayBuilder.PositionsDiffer` | pgbson/mongo-cxx-driver-v2.4/src/mongo/bson/bsonobjbuilder.h:605-611 | Decimal position names of different positions differ. |
| `ArrayBuilder.PositionIs` | pgbson/mongo-cxx-driver-v2.4/src/mongo/bson/bsonobjbuilder.h:605-611 | The name of a position is its decimal numeral in ASCII, without leading zeros. |
| `ArrayBuilder.BSONArrayBuilder.Fill` | pgbson/mongo-cxx-driver-v2.4/src/mongo/bson/bsonobjbuilder.h:833-841 | Nulls up to the named position, none if it is behind, an exception for more than 1500000 elements. |
| `ArrayBuilder.BSONArrayBuilder.AppendNamed` | pgbson/mongo-cxx-driver-v2.4/src/mongo/bson/bsonobjbuilder.h:732-831 | The value of a named append follows exactly the nulls needed, for every name that is a number, narrowed to int; other names append nothing. |
| `ArrayBuilder.BSONArrayBuilder.AppendAt` | pgbson/mongo-cxx-driver-v2.4/src/mongo/bson/bsonobjbuilder.h:732-831 | Appending at the decimal name of a position leaves the value there, or behind the last value if that place is taken. |
| `ArrayBuilder.BSONArrayBuilder.Arr` | pgbson/mongo-cxx-driver-v2.4/src/mongo/bson/bsonobjbuilder.h:725-726 | The array is the encoding of the values under the names 0, 1, 2, ... |
| `Ordering.WoCompareAgrees` | pgbson/mongo-cxx-driver-v2.4/src/mongo/bson/bson-inl.h:37-167 | Comparing two elements gives the lexicographic order of their keys: canonical type, then name, then value, NaN least among numbers. |
| `Ordering.DocsAgree` | pgbson/mongo-cxx-driver-v2.4/src/mongo/db/jsobj.cpp:506-547 | The same for two documents of any depth; the one that ends first is the smaller one. |
| `Comparing.CompareObjects` | pgbson/mongo-cxx-driver-v2.4/src/mongo/db/jsobj.cpp:506-547 | The loop over two iterators on the bytes of two objects computes the comparison of the document trees. |
| `Comparing.CompareElementsAt` | pgbson/mongo-cxx-driver-v2.4/src/mongo/bson/bson-inl.h:147-167 | Two elements compared where they stand: canonical type, name, value, as on the trees. |
| `Comparing.CompareValuesAt` | pgbson/mongo-cxx-driver-v2.4/src/mongo/bson/bson-inl.h:37-142 | The switch on the type, on the bytes of two values of one canonical type. |
| `Ordering.WoCompareIsPreorder` | pgbson/mongo-cxx-driver-v2.4/src/mongo/bson/bson-inl.h:147-167 | On documents whose longs conversion to double keeps apart and which hold dates or timestamps but not both, woCompare never throws and is sign-antisymmetric and transitive. |
| `Ordering.PreorderIffSeparated` | pgbson/mongo-cxx-driver-v2.4/src/mongo/bson/bson-inl.h:64-93 | woCompare is antisymmetric and transitive on all elements with longs of a given set, doubles and all else included, if and only if conversion to double keeps the longs of the set in order. |
| `Doubles.ConvertedBytes` | pgbson/mongo-cxx-driver-v2.4/src/mongo/bson/bson-inl.h:64-93 | Every 64-bit integer converts to a double that stands in some eight bytes. |
| `Ordering.StringsAgree` | pgbson/mongo-cxx-driver-v2.4/src/mongo/bson/bson-inl.h:96-109 | Strings compare by bytes, zeros inside them included, the longer one greater. |
| `Ordering.ThrowsIffDateMeetsTimestamp` | pgbson/mongo-cxx-driver-v2.4/src/mongo/bson/bson-inl.h:51-63 | woCompare throws if and only if a Date on the left meets a Timestamp on the right under the same name, directly or in nested documents with nothing different in front. |
| `Ordering.SmallLongsSeparated` | pgbson/mongo-cxx-driver-v2.4/src/mongo/bson/bson-inl.h:64-93 | Longs up to 2^53 in magnitude are kept apart. |
| `Ordering.LargeLongsNotTransitive` | pgbson/mongo-cxx-driver-v2.4/src/mongo/bson/bson-inl.h:64-93 | The bytes of the longs 2^53 and 2^53 + 1 both equal those of the double 2^53 and do not equal each other. |
| `Ranking.TypesInOrder` | pgbson/mongo-cxx-driver-v2.4/src/mongo/bson/bsontypes.h:116-158 | By type code, whatever names and values: MinKey, undefined, null, numbers, strings and symbols, objects, arrays, binary, object ids, booleans, dates and timestamps, regular expressions, references, code, code with scope, MaxKey. |
| `Ranking.NamesInOrder` | pgbson/mongo-cxx-driver-v2.4/src/mongo/bson/bson-inl.h:147-167 | Within a class of types different names decide, in byte order, whatever the values. |
| `Ranking.IntsInOrder` | pgbson/mongo-cxx-driver-v2.4/src/mongo/bson/bson-inl.h:73-80 | 32-bit integers compare as the signed numbers of their four bytes. |
| `Ranking.LongsInOrder` | pgbson/mongo-cxx-driver-v2.4/src/mongo/bson/bson-inl.h:56-72 | 64-bit integers and dates compare as the signed numbers of their eight bytes. |
| `Ranking.TimestampsInOrder` | pgbson/mongo-cxx-driver-v2.4/src/mongo/bson/bson-inl.h:51-55 | Timestamps compare as unsigned numbers. |
| `Ranking.BoolsInOrder` | pgbson/mongo-cxx-driver-v2.4/src/mongo/bson/bson-inl.h:49-50 | Booleans compare as one signed byte. |
| `Ranking.IntMeetsLong` | pgbson/mongo-cxx-driver-v2.4/src/mongo/bson/bson-inl.h:64-93 | Integers of both widths compare by value, up to 2^53. |
| `Ranking.DoublesInOrder` | pgbson/mongo-cxx-driver-v2.4/src/mongo/bson/bson-inl.h:81-93 | Doubles compare in the order of their bits, sign and magnitude apart, both zeros equal, NaN below all and equal to itself. |
| `Ranking.NaNLeast` | pgbson/mongo-cxx-driver-v2.4/src/mongo/bson/bson-inl.h:81-93 | NaN is less than every integer. |
| `Ranking.RoundsToNearest` | pgbson/mongo-cxx-driver-v2.4/src/mongo/bson/bson-inl.h:64-93 | Conversion to double takes the nearest multiple of the spacing, the even one of two. |
| `Ranking.SpacingLeast` | pgbson/mongo-cxx-driver-v2.4/src/mongo/bson/bson-inl.h:64-93 | The spacing is the least power of two that leaves 53 bits. |
| `Ranking.StringsInOrder` | pgbson/mongo-cxx-driver-v2.4/src/mongo/bson/bson-inl.h:96-109 | Strings, symbols and code compare in the lexicographic order of their bytes. |
| `Ranking.ObjectIdsInOrder` | pgbson/mongo-cxx-driver-v2.4/src/mongo/bson/bson-inl.h:94-95 | Object ids compare in the order of their twelve bytes. |
| `Ranking.BinariesInOrder` | pgbson/mongo-cxx-driver-v2.4/src/mongo/bson/bson-inl.h:119-124 | Binary data compares by length, then subtype, then bytes. |
| `Ranking.RegexesInOrder` | pgbson/mongo-cxx-driver-v2.4/src/mongo/bson/bson-inl.h:125-130 | Regular expressions compare by pattern, then options. |
| `Escape.EscapeString` | pgbson/mongo-cxx-driver-v2.4/src/mongo/bson/bson-inl.h:933-973 | The loop computes the escaped text; unescaping it by the JSON rules gives the input back, and no control byte is left. |
| `Escape.RoundTrip` | pgbson/mongo-cxx-driver-v2.4/src/mongo/bson/bson-inl.h:933-973 | Unescaping undoes escaping for every byte string, with or without escaped slashes. |
| `Escape.EscapeInjective` | pgbson/mongo-cxx-driver-v2.4/src/mongo/bson/bson-inl.h:933-973 | Different inputs have different escaped texts, whichever slash mode each was written in. |
| `Escape.NoControlBytes` | pgbson/mongo-cxx-driver-v2.4/src/mongo/bson/bson-inl.h:933-973 | The escaped text holds no byte below 0x20. |
| `Escape.EscapedIffNeeded` | pgbson/mongo-cxx-driver-v2.4/src/mongo/bson/bson-inl.h:933-973 | A text stays as it is if and only if none of its bytes is a control byte, a quote, a backslash or, in that mode, a slash. |
| `Escape.SlashesEscaped` | pgbson/mongo-cxx-driver-v2.4/src/mongo/bson/bson-inl.h:943-945 | With escaped slashes every slash has a backslash in front. |
| `Escape.ControlLetters` | pgbson/mongo-cxx-driver-v2.4/src/mongo/bson/bson-inl.h:946-960 | The five control bytes with a letter of their own are escaped by it. |
| `InitializerGraph.InitializerDependencyGraph.AddInitializer` | pgbson/mongo-cxx-driver-v2.4/src/mongo/base/initializer_dependency_graph.cpp:27-50 | The status, and the new graph as a function of the old one; a refused registration changes nothing. |
| `InitializerGraph.InitializerDependencyGraph.GetInitializerFunction` | pgbson/mongo-cxx-driver-v2.4/src/mongo/base/initializer_dependency_graph.cpp:52-59 | A function exactly for registered names. |
| `InitializerGraph.RecursiveTopSort` | pgbson/mongo-cxx-driver-v2.4/src/mongo/base/initializer_dependency_graph.cpp:91-152 | Visits a node depth first: success leaves the order extended and the path as it was; an error names a missing node or an actual cycle. |
| `InitializerGraph.InitializerDependencyGraph.TopSort` | pgbson/mongo-cxx-driver-v2.4/src/mongo/base/initializer_dependency_graph.cpp:61-89 | Succeeds if and only if every named node is registered and the graph has no cycle; then the order holds every node once, prerequisites first; otherwise the error is explained by a cycle of the graph or a missing node. |
| `InitializerGraph.OrderedAcyclic` | pgbson/mongo-cxx-driver-v2.4/src/mongo/base/initializer_dependency_graph.cpp:61-89 | A graph that has such an order has no cycle and no missing node. |
| `InitializerGraph.PathDescends` | pgbson/mongo-cxx-driver-v2.4/src/mongo/base/initializer_dependency_graph.cpp:61-89 | In such an order everything reachable from a node comes before it. |
| `InitializerGraph.InitializerDependencyGraph.Execute` | pgbson/mongo-cxx-driver-v2.4/src/mongo/base/initializer.cpp:26-48 | No initializer runs before all it depends on, directly or not; each runs at most once; the run stops at the first failure; it succeeds exactly when the graph is sound and every function succeeds. |
| `InitializerGraph.RegistrationOrderIrrelevant` | pgbson/mongo-cxx-driver-v2.4/src/mongo/base/initializer_dependency_graph.cpp:27-50 | The same registrations in any order, with prerequisites stated from either side, give the same graph. |
| `InitializerGraph.AddAll` | pgbson/mongo-cxx-driver-v2.4/src/mongo/base/initializer_dependency_graph.cpp:27-50 | A series of registrations: all succeed if and only if each has a function and a name of its own; the graph is that of those that succeed, the first of each name. |
| `ParseNumber.ParseNumberFromStringWithBase` | pgbson/mongo-cxx-driver-v2.4/src/mongo/base/parse_number.cpp:109-167 | For every integer type, string and base: the result is the number v if and only if the string is a numeral denoting v and the type holds v; a bad base is refused. |
| `ParseNumber.ParseNonNegative` | pgbson/mongo-cxx-driver-v2.4/src/mongo/base/parse_number.cpp:150-164 | The accumulating loop with its division guard: the value, overflow exactly beyond the maximum, or the first bad digit. |
| `ParseNumber.ParseNegative` | pgbson/mongo-cxx-driver-v2.4/src/mongo/base/parse_number.cpp:125-148 | The same downwards to the minimum. |
| `ParseNumber.OverflowCheck` | pgbson/mongo-cxx-driver-v2.4/src/mongo/base/parse_number.cpp:155-159 | The guard by division is the overflow of the multiplication. |
| `ParseNumber.UnderflowCheck` | pgbson/mongo-cxx-driver-v2.4/src/mongo/base/parse_number.cpp:135-140 | The guard by truncating division is the underflow of the multiplication. |
| `ParseNumber.ExtractUnique` | pgbson/mongo-cxx-driver-v2.4/src/mongo/base/parse_number.cpp:44-107 | A numeral has one reading: sign and base prefix are those that the extraction finds. |
| `ParseNumber.DigitIsPlace` | pgbson/mongo-cxx-driver-v2.4/src/mongo/base/parse_number.cpp:29-37 | A digit is worth its place among the digits and letters, in either case; 36 if it is none. |
| `ParseNumber.DecimalDenotes` | pgbson/mongo-cxx-driver-v2.4/src/mongo/base/parse_number.cpp:109-167 | The decimal digits of a number denote it. |
| `Cursor.NextBatchSize` | pgbson/mongo-cxx-driver-v2.4/src/mongo/client/dbclientcursor.cpp:37-46 | The smaller of the rest and the batch size, where zero means no bound; with a limit at least one. |
| `Cursor.DBClientCursor.RequestMore` | pgbson/mongo-cxx-driver-v2.4/src/mongo/client/dbclientcursor.cpp:119-152 | Fetching a batch keeps the documents still to come, counts the limit down by the batch left behind, and asks for at least one document and never for more than the limit. |
| `Cursor.DBClientCursor.More` | pgbson/mongo-cxx-driver-v2.4/src/mongo/client/dbclientcursor.cpp:208-225 | True exactly when a document is left within the limit; then one is at hand. What is left does not change. |
| `Cursor.DBClientCursor.Next` | pgbson/mongo-cxx-driver-v2.4/src/mongo/client/dbclientcursor.cpp:227-242 | Takes the first of the documents left. |
| `Cursor.DBClientCursor.PutBack` | pgbson/mongo-cxx-driver-v2.4/src/mongo/client/dbclientcursor.h:106-113 | The document put back is the next one, in front of all the others. |
| `Cursor.DBClientCursor.Drain` | pgbson/mongo-cxx-driver-v2.4/src/mongo/client/dbclientcursor.cpp:208-242 | A loop of more() and next() delivers everything left, each document once and in order, and ends. |
| `Cursor.Query` | pgbson/mongo-cxx-driver-v2.4/src/mongo/client/dbclientcursor.cpp:119-242 | Whatever the batch sizes and however the server cuts its replies, the documents delivered are the first `limit` of the result, or all without a limit. |
| `Selection.SelectOne` | pgbson/mongo-cxx-driver-v2.4/src/mongo/client/dbclient_rs.cpp:127-180 | The loop over the nodes returns the node that the specification chooses, remembers it, and tells whether it is the primary. |
| `Selection.SelectedIffCandidate` | pgbson/mongo-cxx-driver-v2.4/src/mongo/client/dbclient_rs.cpp:127-180 | A node is chosen if and only if some node is up, matches the tag and is a secondary when one is asked for. |
| `Selection.FirstEligible` | pgbson/mongo-cxx-driver-v2.4/src/mongo/client/dbclient_rs.cpp:127-180 | When a candidate is within the latency threshold, the choice is the first such node behind the last host. |
| `Selection.NearOneChosen` | pgbson/mongo-cxx-driver-v2.4/src/mongo/client/dbclient_rs.cpp:127-180 | A node under the latency threshold is chosen whenever some candidate is under it. |
| `Selection.LastCandidate` | pgbson/mongo-cxx-driver-v2.4/src/mongo/client/dbclient_rs.cpp:127-180 | When no candidate is under the threshold, the last candidate in turn is chosen. |
| `Selection.StartIs` | pgbson/mongo-cxx-driver-v2.4/src/mongo/client/dbclient_rs.cpp:134-148 | The turns start behind the first node with the endpoint of the last host, or behind the first node of all. |
| `Selection.PicksGoRound` | pgbson/mongo-cxx-driver-v2.4/src/mongo/client/dbclient_rs.cpp:127-180 | Repeated choices go through the eligible nodes in order and around. |
| `Selection.RoundRobinFair` | pgbson/mongo-cxx-driver-v2.4/src/mongo/client/dbclient_rs.cpp:127-180 | In as many consecutive choices as there are eligible nodes each of them is chosen exactly once. |
| `Selection.SelectRepeatedly` | pgbson/mongo-cxx-driver-v2.4/src/mongo/client/dbclient_rs.cpp:127-180 | The same about the calls themselves, each remembering the host it returned. |
| `Selection.SelectRound` | pgbson/mongo-cxx-driver-v2.4/src/mongo/client/dbclient_rs.cpp:127-180 | As many calls as there are eligible nodes return the address of each of them exactly once. |
| `ReadPreference.TagSet.Next` | pgbson/mongo-cxx-driver-v2.4/src/mongo/client/dbclient_rs.cpp:2027-2036 | Moves to the next tag of the list until it is exhausted. |
| `ReadPreference.SelectByTags` | pgbson/mongo-cxx-driver-v2.4/src/mongo/client/dbclient_rs.cpp:1212-1228 | Tries the tags in order, stops at the first that some node matches, and leaves the tag set there. |
| `ReadPreference.SelectNode` | pgbson/mongo-cxx-driver-v2.4/src/mongo/client/dbclient_rs.cpp:1179-1268 | All five read preferences with their fallbacks: the host is that of a node as the preference promises it, or none when there is none; it is remembered exactly when it was chosen by its tags. |
| `ReadPreference.SelectedHonours` | pgbson/mongo-cxx-driver-v2.4/src/mongo/client/dbclient_rs.cpp:1179-1268 | Primary: the first primary that is up. Primary preferred: that, else a tagged secondary. Secondary: one that is up, secondary, not hidden and matches a listed tag. Secondary preferred: that whenever there is one, else the first primary. Nearest: any tagged node that is up. None exactly when there is no such node. |
| `ReadPreference.RemembersTagged` | pgbson/mongo-cxx-driver-v2.4/src/mongo/client/dbclient_rs.cpp:1196-1263 | The host is remembered if and only if it was chosen by its tags, never as the primary. |
| `ReadPreference.SelectedIffCompatible` | pgbson/mongo-cxx-driver-v2.4/src/mongo/client/dbclient_rs.cpp:1366-1404 | For secondary-only and nearest, a node is selected if and only if some node is compatible with the preference and the tags are not an empty list. |
| `ReadPreference.FirstTagWins` | pgbson/mongo-cxx-driver-v2.4/src/mongo/client/dbclient_rs.cpp:1212-1263 | An earlier tag that matches takes precedence over every later one. |
| `Reconcile.UnchangedIffSameAddresses` | pgbson/mongo-cxx-driver-v2.4/src/mongo/client/dbclient_rs.cpp:706-734 | The comparison by size and membership finds no change exactly when the sets of addresses are equal or the list is empty, for lists without repetition. |
| `Reconcile.ReplicaSetMonitor.GetHostDiffInlock` | pgbson/mongo-cxx-driver-v2.4/src/mongo/client/dbclient_rs.cpp:680-704 | The difference: hosts listed and not known, positions known and not listed. |
| `Reconcile.EraseFromEnd` | pgbson/mongo-cxx-driver-v2.4/src/mongo/client/dbclient_rs.cpp:767-772 | Erasing by position from the greatest down removes exactly the positions meant. |
| `Reconcile.SurvivorsInOrder` | pgbson/mongo-cxx-driver-v2.4/src/mongo/client/dbclient_rs.cpp:767-772 | The nodes that stay are in the order they had. |
| `Reconcile.ReplicaSetMonitor.CheckHosts` | pgbson/mongo-cxx-driver-v2.4/src/mongo/client/dbclient_rs.cpp:736-817 | After a change the addresses are exactly those listed, the nodes that stay keep their state and order, new ones follow, no master; an exception from connecting to a new host, exactly when one throws, leaves the unlisted nodes erased, some host missing and the old master; otherwise nothing changes; the internal check fails exactly for a list that repeats a host without changing the set. |
| `Reconcile.VerifyHolds` | pgbson/mongo-cxx-driver-v2.4/src/mongo/client/dbclient_rs.cpp:764-764 | For lists without repetition the internal check cannot fail. |
| `Reconcile.RepeatedHostMisleads` | pgbson/mongo-cxx-driver-v2.4/src/mongo/client/dbclient_rs.cpp:718-732 | For a list that repeats a host it can. |
| `Reconcile.MasterLeftBehind` | pgbson/mongo-cxx-driver-v2.4/src/mongo/client/dbclient_rs.cpp:768-816 | Three nodes with the master last, and a list of the first one and a new host: one node is left when connecting to the new host throws. |
| `MonitorProtocol.StepKeeps` | pgbson/mongo-cxx-driver-v2.4/src/mongo/client/dbclient_rs.cpp:820-920 | Every step of every thread between two lock operations keeps lock ownership and the node indexes threads carry; it keeps the master index valid and threads unfailed exactly unless it leaves _checkHosts by an exception with fewer nodes than the master index needs. |
| `MonitorProtocol.RunsAreSafe` | pgbson/mongo-cxx-driver-v2.4/src/mongo/client/dbclient_rs.cpp:508-1096 | In an interleaving of any number of threads, with any replies, the master index stays in range and no thread indexes a node that is not there, if and only if no exception leaves _checkHosts with fewer nodes than the index of the old master needs. |
| `MonitorProtocol.SafeWithoutThrows` | pgbson/mongo-cxx-driver-v2.4/src/mongo/client/dbclient_rs.cpp:508-1096 | Runs in which no exception leaves _checkHosts are safe. |
| `MonitorProtocol.ThrowLosesMaster` | pgbson/mongo-cxx-driver-v2.4/src/mongo/client/dbclient_rs.cpp:768-816 | A run in which connecting to a new host throws: one node is left, the master index is 1, and the next getMaster fails. |
| `MonitorProtocol.BehindCanFault` | pgbson/mongo-cxx-driver-v2.4/src/mongo/client/dbclient_rs.cpp:521-528 | Whenever the master index is left over, the next thread that asks for the master fails. |
| `MonitorProtocol.OnlyHolderRestructures` | pgbson/mongo-cxx-driver-v2.4/src/mongo/client/dbclient_rs.cpp:736-920 | In every run, a step that changes which nodes there are is taken by the thread that holds the check lock, inside _checkHosts. |
| `MonitorProtocol.IndexStaysValid` | pgbson/mongo-cxx-driver-v2.4/src/mongo/client/dbclient_rs.cpp:820-920 | In every run, the index a thread found before it let go of the lock still names its host when it writes to it. |
| `MonitorProtocol.MasterChanges` | pgbson/mongo-cxx-driver-v2.4/src/mongo/client/dbclient_rs.cpp:508-1096 | In which steps the master index changes, and to what: forgotten on a failure report, when none is found and when nodes change; set to the node that answered as master and is still in its place; else unchanged. |
| `MonitorProtocol.FailuresAreRecorded` | pgbson/mongo-cxx-driver-v2.4/src/mongo/client/dbclient_rs.cpp:508-624 | A node reported as failed is down afterwards, and all others are as they were. |
| `MonitorProtocol.ErrorsAreRecorded` | pgbson/mongo-cxx-driver-v2.4/src/mongo/client/dbclient_rs.cpp:908-915 | A node whose check failed is down, if it is still in its place. |

## Left out

- The PostgreSQL side (pgbson_exports, pgbson_internal): conversions between SQL and BSON values, which need the server's own types.
- BSONElement::size(maxLen) and validate(): bounded variants of the size rule that is modelled.
- The growth limit of 64 MB in BufBuilder: buffers are sequences without a limit.
- JSON output other than string escaping, and the JSON parser.
- woCompare with an index key pattern, which negates single fields, and without field names.
- Ordering.WoCompareIsPreorder: asks for longs that conversion to double keeps apart and for no mix of Date and Timestamp, because the order fails without either; see PreorderIffSeparated, LargeLongsNotTransitive and ThrowsIffDateMeetsTimestamp.
- Validator.ValidateBSON: takes a number of iterations and tells whether the loop is over by then, since a method here must end and the loop of the source need not; NeverEndsIffRecurs says when it does not.
- Validator.ValidateBSONIterative: the same.
- Reader.Elems: takes the document tree as a ghost parameter and asks for its encoding at the place; what it does on bytes that are no document is not stated.
- Reader.NFields: takes the document tree as a ghost parameter and asks for its encoding at the place; what it does on bytes that are no document is not stated.
- Reader.Walk: takes the document tree as a ghost parameter and asks for its encoding at the place; what it does on bytes that are no document is not stated.
- Lookup.GetField: takes the document tree as a ghost parameter and asks for its encoding at the place; what it does on bytes that are no document is not stated.
- Lookup.GetObjectField: takes the document tree as a ghost parameter and asks for its encoding at the place; what it does on bytes that are no document is not stated.
- Lookup.GetFieldDotted: takes the document tree as a ghost parameter and asks for its encoding at the place; what it does on bytes that are no document is not stated.
- Comparing.CompareObjects: takes the document trees as ghost parameters and asks for their encodings at the places.
- Comparing.CompareElementsAt: the same for two elements.
- Builder.BSONObjBuilder.AppendElements: takes the document tree as a ghost parameter and asks for its encoding at the place; what it does on bytes that are no document is not stated.
- Builder.BSONObjBuilder.AppendAs: takes the element as a ghost parameter and asks for its encoding at the place.
- The builder's stream operators, size tracker and destructor.
- Cursor.DBClientCursor.Next: without a call of more() it can go past the limit within a batch, as in the source; what is left is then unchanged.
- Cursor: error flags of replies, tailable and exhaust cursors, lazy initialisation.
- Selection: tags are compared as values of one type; valuesEqual across numeric types and the exception for a tag that is no object are not modelled.
- Reconcile: addresses are in canonical form; parsing of host strings is not modelled. The order in which new hosts are added is left open.
- MonitorProtocol: which hosts are listed and which members are new is left to the environment in each step; the destructor, the configuration-change hook, the watcher thread's timing and what is read from replies beyond master, hosts and failure. Starvation and liveness are not stated.
- selectAndCheckNode's second attempt after a check of the hosts.
- Sockets, authentication, connection pool, GridFS, logging and the rest of the driver.
