# Verification of the engine's core

A Dafny model of the algorithmic core of the engine, and proofs about it. Each module
models one part, in the form the source has it, and states what that part is for.

- **The DOM store** (`Document`, over `DomStore`, `Chains`, `Lists`): the document as a
  class whose methods change the slab, the root, the write log and the parser's form
  associations in place. Each method is proved to leave the state a function of module
  `DomStore` or `DomAttributes` gives; about those functions `DomForest`, `DomLog`,
  `DomForms`, `DomDepth`, `DomCap`, `DomRootCap`, `DomContents` and `DomAttributes` prove what
  one operation keeps, `DomEffects` what it does and when it is refused, and `DomRuns` what
  every run keeps. `DomWalks` measures the worklist
  of `height`; `PseudoAttributes` is the parser and printer of a processing
  instruction's data and `PseudoGrammar` the grammar it is proved against.
- **JSON**: `JsonGrammar` is RFC 8259 as derivation trees that print; `JsonReading` the
  reader as functions; `JsonExact` the two against each other; `JsonReader` the state
  machine of the source; `JsonDepth` its depth limit; `JsonSurface` the terminals
  byte by byte and where reading stops; `JsonQuote` the quoter and its round trip.
- **Text**: `Utf8` and `Utf16` (generalized UTF-8, WTF-8 and UTF-16), `Uri`
  (percent-decoding against RFC 3629), `Base64`, `Tables` (the generators' compressors and
  the searches over their tables) and `CaseMapping` (case conversion on bytes against
  code points).
- **Numbers**: a double is the exact fraction `m * 2^e`, and `std::to_chars` the function
  that rounds it half to even. `Decimals` has digit strings and rounding, `NumberRounding`
  toFixed, `ScientificDigits` the digits of toPrecision and toExponential,
  `NumberNearest` those digits against ECMA-262, `NumberLayout` the printed texts against
  what a decimal literal means and `NumberShape` which notation they are in.
- **Concurrency and search**: `Scheduler` (the thread pool as a machine of interleaved
  steps with an explicit mutex), `Atoms` (the interning table, its two locks interleaved),
  `Roots` (the memoised search over a cyclic graph), `Dataset` (names and keys).

`dafny verify dfyconfig.toml` checks everything.

## What the proofs turned up

- `set_document_element` never asks how high the new element's tree is, so the promise of
  `node.hpp` that no node reaches `max_dom_depth` has an exception
  (`DomRootCap.RootSetBreaksCap`); the exact condition is `DomRootCap.RootSetKeepsCapExactly`.
- `set_template_content` does not ask either, and a template at depth 511 gets its contents
  unasked (`DomContents.LazyContentsBreakCap`); the exact condition is
  `DomContents.ContentsSetKeepsCapExactly`.
- `append_child` and `insert_before` follow the parent pointer, which the document element
  has not: given the root or the Document they break the forest
  (`DomForest.MovedRootBreaksForest`), and only then. `set_document_element` breaks it for
  the Document or a handle of no node (`DomForest.RootSetBreaksForest`), and only then.
- `set_attribute` on a processing instruction with a name the parser refuses leaves data
  that no longer spells the attributes (`DomAttributes.BadNameBreaksStep`), and only then.
- `final_sigma` passes over every case-ignorable code point in search of a cased one, where
  table 3-17 of the Unicode standard, and the comment above the function, let one that is
  both be the cased one. U+02B0 is both: before or after a sigma it turns the verdict
  (`CaseMapping.ModifierBeforeSigma`, `CaseMapping.ModifierAfterSigma`). The model follows the
  code; `CaseMapping.ConvertsByDefaultExactly` says on which texts the two agree.
- `quote_json` takes any ED byte followed by a byte of A0 or more for a surrogate; on
  bytes that are no WTF-8 the round trip fails exactly where that reading is wrong, as on
  ED C0 41 (`JsonQuote.UnfaithfulBytes`).
- `json.hpp` says that nesting has no limit of its own; the reader stops at 1000, and the
  model follows the reader: 1001 brackets are refused (`JsonDepth.DeepTextIsRefused`), and
  no other derivation of a text could save it (`JsonDepth.NestingIsUnique`).
- `dataset.hpp` calls the two conversions no inverses of each other; they are, on what
  each accepts.
- `base64_decode` knows only the standard alphabet, so it undoes the URL alphabet exactly
  where the two agree, and not on "_w" (`Base64.UrlTextIsNotRead`).

## Model

| member | source | states |
|---|---|---|
| DomRuns.StepKeepsForestExactly | ctbrowser/lib/DOM/document.cpp:457-518 | any of the document's writes keeps the forest (each child once, in its parent's list only; the root once, under the Document, without a parent; no cycle) if and only if the caller met `Allowed`: no insertion of the root or the Document, and a live new root |
| DomRuns.Run | ctbrowser/lib/DOM/document.cpp:457-610 | the state after any allowed sequence of writes is again a forest |
| DomRuns.RunIsLogged | ctbrowser/lib/DOM/document.cpp:804-812 | over any allowed run with logging on, replaying the logged removals and insertions in order on the starting child lists never gets stuck (each removed entry finds its child at its index) and ends in the current lists |
| DomRuns.RunKeepsTogether | ctbrowser/lib/DOM/document.cpp:529-551 | over any allowed run that records a pair only while both its ends are in one tree, every kept parser form association has both ends in one tree, even after an insertion that would have reunited a severed pair |
| DomRuns.RunKeepsInStep | ctbrowser/lib/DOM/document.cpp:432-449 | over any run whose attribute writes on processing instructions use valid names, every instruction's attributes are the parse of its data, or none when the data is refused |
| DomRuns.RunKeepsCap | ctbrowser/lib/DOM/document.cpp:622-647 | over any run whose callers refuse composed cycles and hosted fragments and look at the height of a new root and of a template's new contents, no node's composed depth reaches the cap at any point |
| DomForest.MovedRootBreaksForest | ctbrowser/lib/DOM/document.cpp:564-610 | `append_child` and `insert_before` of the Document or of its element under a detached element succeed and leave no forest |
| DomForest.RootSetBreaksForest | ctbrowser/lib/DOM/document.cpp:457-482 | `set_document_element` of the Document, or of a handle of no node, leaves no forest |
| DomForest.AppendKeepsForestExactly | ctbrowser/lib/DOM/document.cpp:564-580 | `append_child` keeps the forest if and only if it refuses or the child is neither the root nor the Document |
| DomForest.InsertKeepsForestExactly | ctbrowser/lib/DOM/document.cpp:582-610 | `insert_before`, likewise |
| DomForest.RemoveKeepsForest | ctbrowser/lib/DOM/document.cpp:649-656 | `remove_child` keeps the forest for every argument |
| DomForest.RootSetKeepsForestExactly | ctbrowser/lib/DOM/document.cpp:457-482 | `set_document_element` keeps the forest if and only if the new element is live and not the Document while there is another root |
| DomForest.RootRemovedKeepsForest | ctbrowser/lib/DOM/document.cpp:484-498 | `remove_document_element` keeps the forest |
| DomForest.CreatedKeepsForest | ctbrowser/lib/DOM/document.cpp:386-412 | a new node is a top of its own and moves no other pointer |
| DomForest.ShadowKeepsForest | ctbrowser/lib/DOM/document.cpp:872-895 | `attach_shadow` keeps the forest, whatever its outcome |
| DomForest.DetachKeepsForest | ctbrowser/lib/DOM/document.cpp:500-518 | after a detach the forest stands, the same nodes are live and the child is a top |
| DomForest.InsertionPlacesChild | ctbrowser/lib/DOM/document.cpp:593-607 | an insertion yields the list of section 4.2.3 of the DOM standard: the child just before its reference, or last; before itself, nothing changes; the others keep their order; every other list only loses the child |
| DomEffects.AppendPlacesLast | ctbrowser/lib/DOM/document.cpp:564-580 | refused, `append_child` changes nothing; done, the parent's list is the old one without the child and the child behind it, every other list only loses the child, the child points to the parent and no other pointer, field or node changes, the version is one more and the notes are the removal, if it had a parent, and the insertion at its index |
| DomEffects.InsertPlacesBefore | ctbrowser/lib/DOM/document.cpp:582-610 | `insert_before` likewise, the parent's list being the one of section 4.2.3 of the DOM standard |
| DomEffects.RemoveTakesOut | ctbrowser/lib/DOM/document.cpp:649-656 | `remove_child` is done if and only if the child is live and not the root; then it is in no list and points nowhere, all else stands, the version is one more and the note, if it had a parent, holds its old index; refused, nothing changes |
| DomEffects.RefusalExactly | ctbrowser/lib/DOM/document.cpp:564-576 | both insertions are refused exactly as the arguments deserve, in this order: a dead handle, a child the parent hangs below, and a true composed depth plus one plus a true height of 512 or more |
| DomEffects.RootSetPlaces | ctbrowser/lib/DOM/document.cpp:457-482 | `set_document_element` puts the new element into the old one's slot of the Document's list, or just before the reference, or at the end; it is the root, points nowhere and is in no other list; notes and version follow; the old element again changes nothing |
| DomEffects.RootRemovedTakesOut | ctbrowser/lib/DOM/document.cpp:484-498 | `remove_document_element` takes the element out of the Document's list and makes the Document the root, with its note; nothing else changes |
| DomEffects.MovesKeepForms | ctbrowser/lib/DOM/document.cpp:500-536 | an insertion or removal of a child without a parent leaves the recorded pairs alone, and of one with a parent exactly the pairs with both or neither end in its subtree |
| DomEffects.RootKeepsForms | ctbrowser/lib/DOM/document.cpp:457-498 | so does a new document element, and removing the element touches no pair |
| DomEffects.CreatedHolds | ctbrowser/lib/DOM/document.cpp:386-430 | a new node has the next handle and the kind, tag and text asked for, an instruction the attributes its text spells; no parent, no children, no other change |
| DomEffects.ShadowAttachedHolds | ctbrowser/lib/DOM/document.cpp:872-895 | `attach_shadow`: the four refusals in order, by the true depth; else a new fragment, and the host and it know each other |
| DomEffects.TextSetHolds | ctbrowser/lib/DOM/document.cpp:760-780 | `set_text` is done if and only if the node is live; its text is the value, an instruction's attributes are read from it and any other node's stay, no other node changes, and the note has the edit given or the whole lengths in UTF-16 units modulo 2^32 |
| DomEffects.AttributeSetHolds | ctbrowser/lib/DOM/document.cpp:658-685 | `set_attribute` is done if and only if the node is an element or an instruction; the first attribute of the name has the value, every other keeps name, value and place, and the list grows by one at the end if and only if the name was absent, which the note says; an instruction's data is written anew; the form pairs go as they should |
| DomEffects.SetValueIsFound | ctbrowser/lib/DOM/document.cpp:667-679 | after it the first attribute of the name has the value given |
| DomEffects.AttributeRemovedHolds | ctbrowser/lib/DOM/document.cpp:715-734 | `remove_attribute` takes out the first attribute of the name and leaves the rest in order, with data, forms, version and note; with none of the name nothing at all changes |
| DomLog.DetachIsLogged | ctbrowser/lib/DOM/document.cpp:505-515 | the note of a detach replays it |
| DomLog.AppendIsLogged | ctbrowser/lib/DOM/document.cpp:564-580 | the notes of `append_child` replay it |
| DomLog.InsertBeforeIsLogged | ctbrowser/lib/DOM/document.cpp:582-610 | the notes of `insert_before` replay it |
| DomLog.RemovalIsLogged | ctbrowser/lib/DOM/document.cpp:649-656 | the notes of `remove_child` replay it |
| DomLog.RootSetIsLogged | ctbrowser/lib/DOM/document.cpp:457-482 | the notes of `set_document_element` replay it, in either branch |
| DomLog.RootRemovalIsLogged | ctbrowser/lib/DOM/document.cpp:484-498 | the note of `remove_document_element` replays it |
| DomForms.DetachSeversExactly | ctbrowser/lib/DOM/document.cpp:500-536 | detaching a child that has a parent keeps a recorded pair if and only if both or neither of its ends lie in the child's subtree |
| DomForms.FormSetKeepsTogetherExactly | ctbrowser/lib/DOM/document.cpp:548-551 | `set_parser_form` leaves every recorded pair in one tree if and only if the new pair is |
| DomForms.MoveKeepsTogether | ctbrowser/lib/DOM/document.cpp:574-577 | a move severs in its detach, and its insertion leaves every kept pair in one tree |
| DomForms.RootSetKeepsTogether | ctbrowser/lib/DOM/document.cpp:457-482 | a new document element leaves every kept pair in one tree |
| DomDepth.DepthIsCapped | ctbrowser/lib/DOM/document.cpp:622-626 | `depth` is the true number of composed ancestors, capped |
| DomDepth.HeightCovers | ctbrowser/lib/DOM/document.cpp:630-647 | `height` misses no node below, up to the cap |
| DomDepth.HeightReached | ctbrowser/lib/DOM/document.cpp:630-647 | `height` is the distance to some node below |
| DomDepth.HeightIsCapped | ctbrowser/lib/DOM/document.cpp:630-647 | `height` is the true height over children, shadow roots and template contents, capped |
| DomCap.AppendKeepsCap | ctbrowser/lib/DOM/document.cpp:573-576 | `append_child` keeps every composed depth below the cap |
| DomCap.InsertKeepsCap | ctbrowser/lib/DOM/document.cpp:592-605 | `insert_before` keeps every composed depth below the cap |
| DomCap.RemoveKeepsCap | ctbrowser/lib/DOM/document.cpp:649-656 | `remove_child` keeps every composed depth below the cap |
| DomRootCap.ShadowKeepsCap | ctbrowser/lib/DOM/document.cpp:881-887 | `attach_shadow` keeps every composed depth below the cap |
| DomRootCap.RootSetKeepsCapExactly | ctbrowser/lib/DOM/document.cpp:457-482 | `set_document_element`, which asks for no depth, keeps the cap if and only if one more than the new element's height is below it |
| DomRootCap.RootSetBreaksCap | ctbrowser/include/ctbrowser/dom/node.hpp:35-49 | the promise of the header fails: a detached chain of 512 elements made the document element reaches the cap |
| DomContents.ContentsSetKeepsCapExactly | ctbrowser/lib/DOM/document.cpp:821-829 | `set_template_content`, which asks for no depth either, keeps the cap, for an unhosted fragment the element does not hang below, if and only if the element's depth plus one plus the fragment's height is below it; what the template held before is let go |
| DomContents.ContentsAreFound | ctbrowser/lib/DOM/document.cpp:814-829 | `template_content` answers what was set for the element, and for every other what it did |
| DomContents.LazyContentsBreakCap | ctbrowser/lib/Shell/bindings/element/wrapper.cpp:103-113 | the promise of the header fails once more: the fragment made when the contents of a template at depth 511 are first asked for stands at the cap |
| DomAttributes.BadNameBreaksStep | ctbrowser/lib/DOM/document.cpp:658-685 | writing an attribute named "1" to an empty processing instruction succeeds and leaves data that does not spell the attributes |
| DomAttributes.SetAttributeKeepsStepExactly | ctbrowser/lib/DOM/document.cpp:658-685 | an attribute write keeps an instruction's attributes the parse of its data if and only if the name is one the parser accepts |
| DomAttributes.SpelledExactly | ctbrowser/lib/DOM/document.cpp:434-449 | an attribute list is what its own serialisation spells if and only if its names are valid and distinct |
| DomAttributes.RemoveAttributeKeepsStep | ctbrowser/lib/DOM/document.cpp:715-734 | removing an attribute keeps an instruction in step |
| DomWalks.StepKeepsBest | ctbrowser/lib/DOM/document.cpp:633-645 | one turn of the worklist loses no candidate for the tallest path |
| DomWalks.StepShrinksWork | ctbrowser/lib/DOM/document.cpp:633-645 | one turn of the worklist leaves less work: the loop ends |
| Document.Document.constructor | ctbrowser/lib/DOM/document.cpp:379-382 | a new document is the Document alone, its own root: a forest below the cap, in step and without associations, which is where the runs start |
| Document.Document.UpFrom | ctbrowser/lib/DOM/document.cpp:612-620 | the walk's step is the parent, the Document for the root, the host or the template |
| Document.Document.Depth | ctbrowser/lib/DOM/document.cpp:622-626 | the loop computes the capped composed depth |
| Document.Document.Height | ctbrowser/lib/DOM/document.cpp:630-647 | the worklist loop, which stops at the cap, computes the capped composed height |
| Document.Document.TooDeepFor | ctbrowser/include/ctbrowser/dom/document.hpp:226-228 | the depth test is `depth(parent) + 1 + height(child) >= 512` |
| Document.Document.Hangs | ctbrowser/lib/DOM/document.cpp:570-572 | the cycle check finds the child if and only if the parent lies in its subtree, and ends |
| Document.Document.Top | ctbrowser/lib/DOM/document.cpp:530-533 | the walk ends at the top of the node's tree |
| Document.Document.SeverParserForms | ctbrowser/lib/DOM/document.cpp:529-536 | exactly the pairs with both ends in one tree are kept, in order |
| Document.Document.Detach | ctbrowser/lib/DOM/document.cpp:500-518 | the whole state after a detach: lists, pointer, note, associations |
| Document.Document.AppendChild | ctbrowser/lib/DOM/document.cpp:564-580 | outcome and whole new state, the child last in the parent's list and nowhere else, and when the invariant stands after it |
| Document.Document.InsertChildBefore | ctbrowser/lib/DOM/document.cpp:582-610 | outcome and whole new state, the child where the DOM standard says and nowhere else, and when the invariant stands after it |
| Document.Document.RemoveChild | ctbrowser/lib/DOM/document.cpp:649-656 | which outcome when, and done, the child in no list and without a parent; whole new state; the invariant stands |
| Document.Document.SetDocumentElement | ctbrowser/lib/DOM/document.cpp:457-482 | whole new state, the element in its place of the Document's list, and when the invariant stands after it |
| Document.Document.RemoveDocumentElement | ctbrowser/lib/DOM/document.cpp:484-498 | whole new state; the invariant stands |
| Document.Document.Create | ctbrowser/lib/DOM/document.cpp:386-430 | a fresh handle, a processing instruction's attributes read from its data; the invariant stands |
| Document.Document.AttachShadow | ctbrowser/lib/DOM/document.cpp:872-895 | the four refusals in order, and on success both maps; the invariant stands |
| Document.Document.SetTemplateContent | ctbrowser/lib/DOM/document.cpp:821-829 | the first pair of the element overwritten or one appended; the invariant stands |
| Document.Document.SetParserForm | ctbrowser/lib/DOM/document.cpp:548-551 | the pair appended; the invariant stands |
| Document.Document.SetText | ctbrowser/lib/DOM/document.cpp:760-780 | data, attributes, version and the note with its UTF-16 lengths; the invariant stands |
| Document.Document.SetAttribute | ctbrowser/lib/DOM/document.cpp:658-685 | the value is stored: the first attribute of the name overwritten or one appended, the data rewritten, the association ended, the note; the invariant stands |
| Document.Document.RemoveAttribute | ctbrowser/lib/DOM/document.cpp:715-734 | the first attribute of the name removed, or nothing at all when there is none; the invariant stands |
| Document.Document.ForgetParserForm | ctbrowser/lib/DOM/document.cpp:542-546 | exactly the element's pairs go, for the `form` attribute of anything but an `img` |
| Document.Document.LogWrites | ctbrowser/lib/DOM/document.cpp:782-785 | turning the log off empties it |
| Document.Document.TakeWrites | ctbrowser/lib/DOM/document.cpp:787-789 | the log is handed over and emptied |
| PseudoAttributes.ParsePseudoAttributes | ctbrowser/lib/DOM/document.cpp:101-179 | the cursor loops compute `Parsed`, which `PseudoGrammar.ParsesExactlyTheGrammar` ties to the grammar |
| PseudoGrammar.ParsesExactlyTheGrammar | ctbrowser/lib/DOM/document.cpp:82-179 | a text is accepted with a list if and only if it is written by the grammar of xml-stylesheet section 3 (assignments kept apart by white space, no name twice, values between quotes of either kind out of bytes, the five predefined entities and references to XML characters) and that is the list it means |
| PseudoGrammar.ReadsAll | ctbrowser/lib/DOM/document.cpp:101-179 | whatever the grammar writes is read to what it means, after any attributes read before |
| PseudoGrammar.AllIsWritten | ctbrowser/lib/DOM/document.cpp:101-179 | whatever is read has a derivation in the grammar with that meaning |
| PseudoAttributes.SerializePseudoAttributes | ctbrowser/lib/DOM/document.cpp:184-203 | the writer's text, every value escaped |
| PseudoGrammar.SerializedIsPrinted | ctbrowser/lib/DOM/document.cpp:184-203 | its text is the grammar's, single spaces between, double quotes around, and `&`, `<`, `>` and the double quote as entities |
| PseudoGrammar.XmlChars | ctbrowser/lib/DOM/document.cpp:134-138 | which numbers a reference may name: XML's Char |
| PseudoGrammar.NameStarts | ctbrowser/lib/DOM/document.cpp:91-94 | which bytes start a name |
| PseudoGrammar.NameGoesOn | ctbrowser/lib/DOM/document.cpp:95-98 | which bytes go on in one |
| PseudoGrammar.XmlSpaces | ctbrowser/lib/DOM/document.cpp:104-110 | which bytes are white space |
| PseudoAttributes.SerializedRoundTripExactly | ctbrowser/lib/DOM/document.cpp:101-203 | parsing the serialisation gives the list back, for any values, if and only if the names are valid and distinct |
| JsonReader.JsonReader.Parse | ctbrowser/lib/Core/json.cpp:65-99 | the state machine reads one value exactly as the grammar reader does: value, rest, failure and depth |
| JsonReader.JsonReader.ParseString | ctbrowser/lib/Core/json.cpp:116-178 | strings, escapes and surrogate pairs, the back-out after a high surrogate included |
| JsonReader.JsonReader.ParseUnicodeEscape | ctbrowser/lib/Core/json.cpp:145-171 | a pair becomes one code point, a lone half stays one, and a failed look-ahead consumes nothing |
| JsonReader.JsonReader.ParseNumber | ctbrowser/lib/Core/json.cpp:183-216 | the token of a number, or failure |
| JsonReader.JsonReader.ParseArray | ctbrowser/lib/Core/json.cpp:222-245 | the loop reads the elements and ends |
| JsonReader.JsonReader.ParseObject | ctbrowser/lib/Core/json.cpp:249-281 | the loop reads the members; `positions` always agrees with the members kept |
| JsonReader.ParseJson | ctbrowser/lib/Core/json.cpp:286-288 | success if and only if the text is in the grammar with nesting at most 1000, then the value of every derivation; else an offset within the text |
| JsonExact.ParsesExactlyTheGrammar | ctbrowser/lib/Core/json.cpp:36-99 | the reader accepts exactly the grammar of RFC 8259 sections 2-7 up to nesting 1000 and gives the derivation's value; an error offset never exceeds the length |
| JsonExact.ParsedHasDerivation | ctbrowser/lib/Core/json.cpp:56-99 | what is accepted has a derivation of that value |
| JsonDepth.NestingIsUnique | ctbrowser/lib/Core/json.cpp:25-31 | all derivations of a text nest alike |
| JsonDepth.NestingDecides | ctbrowser/lib/Core/json.cpp:71-79 | a text with a derivation is accepted if and only if that derivation nests at most 1000 deep |
| JsonDepth.DeepTextIsRefused | ctbrowser/include/ctbrowser/core/json.hpp:35-36 | 1001 brackets opened and closed are a legal text, and it is refused: the header's word that there is no limit fails |
| JsonDepth.DeepestTextIsRead | ctbrowser/lib/Core/json.cpp:30-31 | 1000 brackets are accepted |
| JsonSurface.EightEscapes | ctbrowser/lib/Core/json.cpp:135-173 | the eight two-character escapes of RFC 8259 section 7, what each stands for, and that there is no other |
| JsonSurface.UnicodeEscape | ctbrowser/lib/Core/json.cpp:103-173 | `\u` and four hex digits, the most significant first |
| JsonSurface.EscapedPair | ctbrowser/lib/Core/json.cpp:145-171 | U+1F600 as a pair of escapes is the four bytes F0 9F 98 80 |
| JsonSurface.RawBytes | ctbrowser/lib/Core/json.cpp:117-131 | which byte may stand in a string as it is, and where reading stops at any other |
| JsonSurface.FourSpaces | ctbrowser/lib/Core/json.cpp:33-41 | exactly four bytes are white space |
| JsonSurface.TenDigits | ctbrowser/lib/Core/json.cpp:183-216 | exactly ten bytes are digits, and one alone is a number |
| JsonSurface.NullIsRead | ctbrowser/lib/Core/json.cpp:86-98 | the three literals |
| JsonSurface.Punctuation | ctbrowser/lib/Core/json.cpp:183-281 | brackets, comma, colon, signs, point and exponents |
| JsonSurface.StopsBehindValue | ctbrowser/lib/Core/json.cpp:53-63 | the error offset behind a whole value is that of the first byte too many |
| JsonSurface.StopsInNumber | ctbrowser/lib/Core/json.cpp:183-216 | the error offset of a number cut short is its end |
| JsonSurface.StopsAtSeparator | ctbrowser/lib/Core/json.cpp:222-281 | the error offset where a separator or a key was due |
| JsonReading.ReadsTree | ctbrowser/lib/Core/json.cpp:65-281 | every printed derivation is read back to its value, whatever follows |
| JsonGrammar.ObjectCollects | ctbrowser/lib/Core/json.cpp:249-281 | a repeated key keeps its first position and takes its last value |
| JsonQuote.QuoteJson | ctbrowser/lib/Core/json.cpp:290-332 | the loop appends the quoted text |
| JsonQuote.QuotesByte | ctbrowser/lib/Core/json.cpp:290-332 | each byte that starts no encoded surrogate is written by the table of ECMA-262 section 25.5.2.3, lower-case digits in an escape, and the rest goes on |
| JsonQuote.QuotesSurrogate | ctbrowser/lib/Core/json.cpp:290-332 | three bytes taken for a surrogate are written as the escape of its unit |
| JsonQuote.QuoteRoundTripExactly | ctbrowser/lib/Core/json.cpp:290-332 | parsing the quoted text gives the string back if and only if it is `Faithful`: no ED byte is taken for a surrogate that is none, and no two encoded halves meet |
| JsonQuote.UnfaithfulBytes | ctbrowser/lib/Core/json.cpp:290-332 | the bytes ED C0 41 do not come back from quoting and parsing |
| JsonQuote.QuoteRoundTrip | ctbrowser/lib/Core/json.cpp:290-332 | every well-formed WTF-8 string survives quoting and parsing |
| Utf8.DecodeUtf8 | ctbrowser/include/ctbrowser/core/algorithms.hpp:212-247 | one code point and the bytes it took; a malformed or cut sequence is its first byte |
| Utf8.MalformedIsItself | ctbrowser/include/ctbrowser/core/algorithms.hpp:212-247 | more than one byte is taken if and only if a lead byte has all its continuation bytes; else the byte stands for itself |
| Utf8.HexDigitsAre | ctbrowser/include/ctbrowser/core/algorithms.hpp:90-95 | the hex digits and their values |
| Utf8.FirstOfEncode | ctbrowser/include/ctbrowser/core/algorithms.hpp:143-160 | the reader undoes the writer for every value, surrogates included, whatever follows |
| Utf8.DecodeAllOfEncodeAll | ctbrowser/include/ctbrowser/core/algorithms.hpp:205-247 | the forward reading of encoded code points is those code points |
| Utf16.Wtf8ToUtf16 | ctbrowser/lib/Core/algorithms.cpp:80-96 | the units of the forward reading of any bytes |
| Utf16.Utf16ToWtf8 | ctbrowser/lib/Core/algorithms.cpp:98-111 | adjacent halves joined, lone ones kept |
| Utf16.UnitsLength | ctbrowser/lib/DOM/document.cpp:753-757 | the length of the UTF-16 form of any bytes, in 32 bits |
| Utf16.UnitsRoundTrip | ctbrowser/lib/Core/algorithms.cpp:80-111 | units to bytes and back is the identity, lone surrogates included |
| Utf16.BytesRoundTripExactly | ctbrowser/lib/Core/algorithms.cpp:80-111 | bytes to units and back is the identity if and only if the bytes are well-formed WTF-8 |
| NumberRounding.HalfwayIsTie | ctbrowser/lib/Core/number_format.cpp:115-123 | `halfway_exactly` holds if and only if magnitude * 10^places is half an odd integer |
| NumberRounding.FixedDigits | ctbrowser/lib/Core/number_format.cpp:144-183 | the digits of magnitude * 10^places rounded half up, by way of a half-even printer |
| Decimals.RoundUpInPlace | ctbrowser/lib/Core/number_format.cpp:129-139 | the string one unit up, and whether it grew |
| Decimals.RoundedUpSays | ctbrowser/lib/Core/number_format.cpp:129-139 | the number said is one more, and a digit is added exactly for all nines |
| Decimals.NextDigits | ctbrowser/lib/Core/number_format.cpp:129-139 | rounding up the padded digits of n gives the padded digits of n + 1 |
| Decimals.HalfUpIsNearest | ctbrowser/lib/Core/number_format.cpp:110-114 | half up is the one nearest integer, the larger of two |
| NumberLayout.FixedIsNearest | ctbrowser/lib/Core/number_format.cpp:144-183 | the text of toFixed denotes the nearest multiple of 10^-places, the larger of two (ECMA-262 section 21.1.3.3) |
| ScientificDigits.SplitScientific | ctbrowser/lib/Core/number_format.cpp:58-64 | digits and exponent out of a scientific text, point skipped |
| ScientificDigits.SplitUndoes | ctbrowser/lib/Core/number_format.cpp:45-64 | splitting undoes the printer, for every exponent and its sign |
| ScientificDigits.ExpansionIsExact | ctbrowser/lib/Core/number_format.cpp:256-263 | 781 digits hold every double exactly |
| ScientificDigits.ExactText | ctbrowser/lib/Core/number_format.cpp:275-285 | a five and nothing but zeros after the kept digits of the exact text, if and only if the value is a tie |
| ScientificDigits.ScientificDigits | ctbrowser/lib/Core/number_format.cpp:265-293 | digits and exponent rounded half up for every double and every digit count, carry included |
| NumberNearest.PrintedIsNearest | ctbrowser/lib/Core/number_format.cpp:256-293 | of all numbers with so many significant digits the printed one is nearest to the value, the larger of two equally near (ECMA-262 sections 21.1.3.2 and 21.1.3.5) |
| NumberLayout.LayOut | ctbrowser/lib/Core/number_format.cpp:211-239 | the five branches write the layout |
| NumberLayout.LayoutDenotes | ctbrowser/lib/Core/number_format.cpp:217-238 | whatever the layout, the text denotes 0.digits * 10^n |
| NumberLayout.LayoutIsInjective | ctbrowser/lib/Core/number_format.cpp:217-238 | stripped digits and an exponent can be read off the text |
| NumberLayout.FastPathAgrees | ctbrowser/lib/Core/number_format.cpp:198-209 | an integer printed whole is what the general layout prints for any stripped digits that denote it |
| NumberLayout.NumberToString | ctbrowser/lib/Core/number_format.cpp:193-239 | zero, the fast path and the layouts: one text (ECMA-262 section 6.1.6.1.20) |
| NumberLayout.PrecisionDenotes | ctbrowser/lib/Core/number_format.cpp:361-381 | either notation of toPrecision denotes all the digits asked for |
| NumberLayout.NumberToPrecision | ctbrowser/lib/Core/number_format.cpp:340-382 | the rounded digits in the notation the exponent picks; zero apart |
| NumberLayout.NumberToExponential | ctbrowser/lib/Core/number_format.cpp:296-332 | the rounded digits with the fewest exponent digits; without an argument the shortest digits, and "0" at exponent 0 for zero |
| NumberLayout.ShortestMeansTheSame | ctbrowser/lib/Core/number_format.cpp:303-332 | without an argument the text denotes the number toString prints for the same digits, and zero is "0e+0" |
| NumberShape.LayoutShows | ctbrowser/lib/Core/number_format.cpp:211-239 | which of the notations of ECMA-262 section 6.1.6.1.20 is picked, the exponent if and only if n <= -6 or n > 21, and which digits stand before and behind the point |
| NumberShape.PrecisionTextShows | ctbrowser/lib/Core/number_format.cpp:358-381 | toPrecision writes an exponent if and only if that of the rounded value is below -6 or not below the digits asked for; else e + 1 digits before the point and all asked for, a point only with digits behind it, or "0." with -e - 1 zeros |
| NumberShape.ExponentialTextShows | ctbrowser/lib/Core/number_format.cpp:318-332 | toExponential writes one digit, as many more as asked for, a sign and an exponent without spare zeros |
| NumberShape.ShortestExponentialShows | ctbrowser/lib/Core/number_format.cpp:303-332 | without an argument it writes the digits there are |
| NumberShape.FixedShows | ctbrowser/lib/Core/number_format.cpp:144-183 | toFixed writes exactly the places asked for and no zero it could spare before the point |
| NumberLayout.PrintedDigitsMean | ctbrowser/lib/Core/number_format.cpp:296-382 | toPrecision and toExponential print the same number |
| Tables.Runs | tools/gen/unicode_case.py:54-79 | for any map, ordered runs that say of every point exactly what the map says |
| Tables.Ranges | tools/gen/unicode_case.py:82-90 | for any set, separate ranges that hold exactly its points |
| Tables.FewestRanges | tools/gen/unicode_case.py:82-90 | separate ranges are the fewest: any ranges at all, in any order and overlapping or not, that hold the same points are at least as many |
| Tables.Specials | tools/gen/unicode_case.py:135-139 | each special entry once, sorted |
| Tables.SimpleMap | ctbrowser/lib/Core/case_mapping.cpp:62-69 | the binary search over runs |
| Tables.LookupIsMap | ctbrowser/lib/Core/case_mapping.cpp:62-69 | the search over runs that represent a map answers `map.get(cp, cp)` for every code point |
| Tables.HasProperty | ctbrowser/lib/Core/case_mapping.cpp:81-85 | the binary search over ranges |
| Tables.FoundIsMembership | ctbrowser/lib/Core/case_mapping.cpp:81-85 | the search over ranges that span a set is membership |
| Tables.SpecialMap | ctbrowser/lib/Core/case_mapping.cpp:73-77 | the binary search over special entries |
| Tables.SpecialIsMap | ctbrowser/lib/Core/case_mapping.cpp:73-77 | the search over entries answers what the map holds |
| Tables.PaddingRoundTripsExactly | tools/gen/unicode_case.py:137-138 | padding to three and dropping zeros loses nothing if and only if there are at most three code points and none is zero |
| Tables.LowercaseRuns | tools/gen/unicode_lowercase.py:94-112 | the greedy compressor's runs represent the one-unit part of any map |
| Tables.UnicodeLowercaseUnit | ctbrowser/lib/Core/unicode_lowercase.cpp:31-40 | the search, in 16 bits, U+0130 apart |
| Tables.LowercaseIsMap | ctbrowser/lib/Core/unicode_lowercase.cpp:31-40 | for every code unit the search answers what the generator's map says, U+0130 included |
| CaseMapping.DecodeBefore | ctbrowser/lib/Core/case_mapping.cpp:89-102 | the loop back over continuation bytes |
| CaseMapping.BackwardAgrees | ctbrowser/lib/Core/case_mapping.cpp:87-102 | on any bytes, reading back from a stop of the forward reading gives the code point read last and the stop before it |
| CaseMapping.FinalSigma | ctbrowser/lib/Core/case_mapping.cpp:104-126 | the two walks over bytes judge the code points of the forward reading |
| CaseMapping.FinalAtPlace | ctbrowser/lib/Core/case_mapping.cpp:107-126 | a sigma is judged final if and only if, every case-ignorable code point passed over whether cased or not, the nearest one before exists and is cased and the nearest one after is absent or uncased |
| CaseMapping.JudgesLikeTableExactly | ctbrowser/lib/Core/case_mapping.cpp:104-126 | that verdict is Final_Sigma of Unicode table 3-17, where a cased code point may be case-ignorable too, if and only if passing over cased code points is harmless there: a cased one stands behind the ignorable run that follows, or that run holds none where a cased one stands before the run that leads up, or where none does, a cased one in the leading run comes with one in the following |
| CaseMapping.ConvertsByDefaultExactly | ctbrowser/lib/Core/case_mapping.cpp:104-163 | on the bytes of any code points and for data that maps ASCII as Unicode does, the conversion is Unicode's default case conversion, taken from the data alone, if and only if upper case is asked for or every capital sigma is where passing over cased code points is harmless |
| CaseMapping.ConvertsByDefaultWhenApart | ctbrowser/lib/Core/case_mapping.cpp:104-163 | if no code point were both cased and case-ignorable, it would be so on every text |
| CaseMapping.AsciiIsConverted | ctbrowser/lib/Core/case_mapping.cpp:133-140 | on ASCII bytes each byte becomes itself, or the letter 0x20 away if it is one of the other case |
| CaseMapping.UnmappedStays | ctbrowser/lib/Core/case_mapping.cpp:154-157 | any bytes that decode to nothing with a mapping, malformed ones too, are copied as they are |
| CaseMapping.ModifierBeforeSigma | ctbrowser/lib/Core/case_mapping.cpp:104-126 | U+02B0 before a sigma: final by the table, not final to the code, and the two lower-case texts |
| CaseMapping.ModifierAfterSigma | ctbrowser/lib/Core/case_mapping.cpp:104-126 | U+02B0 after "a" and a sigma: not final by the table, final to the code, and the two lower-case texts |
| CaseMapping.UnicodeCase | ctbrowser/lib/Core/case_mapping.cpp:130-163 | on any bytes, the result sequence by sequence; what maps to itself is copied |
| CaseMapping.CaseRefinesCodes | ctbrowser/lib/Core/case_mapping.cpp:130-163 | on encoded code points, the bytes of what becomes of each of them, under the reading of Final_Sigma that passes over cased ones |
| CaseMapping.CaseDecodes | ctbrowser/lib/Core/case_mapping.cpp:130-163 | the code points of the result are the concatenated mappings |
| Uri.Decode | ctbrowser/lib/Core/uri.cpp:20-76 | the loop decodes or refuses; no index leaves the input |
| Uri.ReadSequence | ctbrowser/lib/Core/uri.cpp:53-73 | the continuation escapes of one sequence and its code point |
| Uri.ArithmeticIsTable | ctbrowser/lib/Core/uri.cpp:49-71 | lead range, floor, maximum and surrogate tests are the byte table of RFC 3629 section 4 |
| Uri.TableIsEncoding | ctbrowser/lib/Core/uri.cpp:66-71 | that table is the encoding of the scalar values |
| Uri.DecodesExactly | ctbrowser/lib/Core/uri.cpp:20-76 | success with a result if and only if the text is made of plain bytes and of escapes that spell sequences, which spell that result |
| Uri.EscapeSurvivesExactly | ctbrowser/lib/Core/uri.cpp:33-41 | wherever it stands, an escape of an ASCII byte is left as written if and only if the byte is to be kept, else it is the byte |
| Uri.SequenceIsDecoded | ctbrowser/lib/Core/uri.cpp:42-73 | the escapes of a longer sequence are decoded, whatever is kept |
| Uri.PlainIsCopied | ctbrowser/lib/Core/uri.cpp:24-27 | any byte but a percent sign is copied |
| Uri.AsciiDecodesToUtf8 | ctbrowser/lib/Core/uri.cpp:20-76 | an ASCII text decodes to well-formed UTF-8 or not at all |
| Uri.PercentRoundTripsExactly | ctbrowser/lib/Core/uri.cpp:20-76 | percent-encoding every byte and decoding with nothing kept is the identity if and only if the bytes are well-formed UTF-8 |
| Base64.Base64Encode | ctbrowser/lib/Core/algorithms.cpp:124-150 | the loop writes the letters of the sextets and the padding |
| Base64.Base64Decode | ctbrowser/lib/Core/algorithms.cpp:178-208 | the loop packs the letters' values; no write leaves the buffer of (n + 3) / 4 * 3 bytes |
| Base64.LettersAreTables | ctbrowser/lib/Core/algorithms.cpp:113-127 | the writer's letters are the tables of RFC 4648 sections 4 and 5, and the reader knows exactly those of the first, by their places |
| Base64.SextetsSpellBits | ctbrowser/lib/Core/algorithms.cpp:124-150 | the sextets spell the bits of each three bytes, high ones first, a last group with zeros behind |
| Base64.PaddingFills | ctbrowser/lib/Core/algorithms.cpp:124-150 | padding fills the last group to four characters, and omitting it omits only that |
| Base64.RoundTrip | ctbrowser/lib/Core/algorithms.cpp:124-208 | decoding undoes encoding in the standard alphabet, padded or not |
| Base64.UrlRoundTripsExactly | ctbrowser/lib/Core/algorithms.cpp:124-208 | the lenient loop undoes the URL alphabet if and only if the text is the same in both |
| Base64.UrlTextIsNotRead | ctbrowser/lib/Core/algorithms.cpp:124-208 | the byte FF is "_w" in the URL alphabet, and reading that does not give it back |
| Base64.OthersAreIgnored | ctbrowser/lib/Core/algorithms.cpp:186-190 | a character outside the alphabet changes nothing, wherever it stands |
| Scheduler.TasksStartOnceInOrder | ctbrowser/lib/Core/scheduler.cpp:28-58 | in every interleaving tasks leave the queue in submission order, each is started at most once, by the one thread that took it, and none is lost |
| Scheduler.NoWakeupIsLost | ctbrowser/lib/Core/scheduler.cpp:28-58 | in every interleaving, while a worker sleeps the queued tasks number at most the awake workers not running one plus the submitters still to notify |
| Scheduler.StepKeepsSafe | ctbrowser/lib/Core/scheduler.cpp:28-58 | every step of every thread keeps order, mutual exclusion, the emptiness seen before sleeping, ownership and wakeups |
| Scheduler.SomeThreadCanStep | ctbrowser/lib/Core/scheduler.cpp:42-58 | a pool not at rest has a step: the lock never deadlocks it |
| Scheduler.PoolDrains | ctbrowser/lib/Core/scheduler.cpp:28-58 | after any run, once nobody calls again, the pool comes to rest within a bounded number of steps, and at rest every submitted task was started |
| Scheduler.SubmitQueuesLast | ctbrowser/lib/Core/scheduler.cpp:28-38 | a call of `submit` puts one task behind all others before it notifies |
| Scheduler.HelperStartsFirst | ctbrowser/lib/Core/scheduler.cpp:40-50 | a call of `run_one` starts the first task there is |
| Scheduler.WorkerStartsFirst | ctbrowser/lib/Core/scheduler.cpp:52-58 | so does a worker, and with an empty queue it looks again, under the lock, before it sleeps |
| Scheduler.SubmissionsAreIssued | ctbrowser/lib/Core/scheduler.cpp:28-38 | in every interleaving as many tasks were issued as `submit` was called, but for calls on their way |
| Scheduler.EverySubmissionStarts | ctbrowser/lib/Core/scheduler.cpp:28-58 | a pool left to itself comes to rest with every task it was ever given started |
| Roots.Finder.Visit | tools/check/root-reasons.py:279-297 | the memoised search returns what the search without a memo returns, and ends |
| Roots.Finder.RootsOf | tools/check/root-reasons.py:274-299 | every node's result is its own search's, whatever the visiting order |
| Roots.MemoMayKeep | tools/check/root-reasons.py:295-296 | what is memoised has no cycle ahead and is its sinks |
| Roots.MemoAnswers | tools/check/root-reasons.py:280-281 | a memo hit is the search's own answer under any stack that leads to the node |
| Roots.FoundAreDeadEnds | tools/check/root-reasons.py:279-297 | in any graph the result is exactly the ends of the ways that visit nothing twice and can go nowhere new |
| Roots.HitIsCycle | tools/check/root-reasons.py:282-296 | the search reports a cycle if and only if some way ahead comes back to itself or the stack |
| Roots.AcyclicFindsSinks | tools/check/root-reasons.py:274-299 | with no cycle ahead the result is exactly the reachable nodes that depend on no node |
| Roots.RootsMean | tools/check/root-reasons.py:274-299 | results are never empty, all reachable, and hold every reachable sink |
| Atoms.AtomTable.Intern | ctbrowser/lib/Core/atom.cpp:20-34 | index and storage agree; a known string changes nothing, a new one gets the next id |
| Atoms.OneIdForEver | ctbrowser/lib/Core/atom.cpp:20-43 | under any interleaving two calls get one id if and only if they asked for one string, and every id reads back as its string for ever |
| Dataset.DatasetNameOf | ctbrowser/lib/DOM/dataset.cpp:28-42 | the key of a name, or none |
| Dataset.DatasetAttributeOf | ctbrowser/lib/DOM/dataset.cpp:48-62 | a syntax fault exactly for a dash before a lowercase letter, else the name and whether it is valid |
| Dataset.NamesAndKeysAreInverse | ctbrowser/lib/DOM/dataset.cpp:28-62 | a name converts to a key if and only if the key converts to the name |
| Dataset.NameLetters | ctbrowser/lib/DOM/dataset.cpp:28-42 | a dash and a lowercase letter are that letter in upper case, and an uppercase letter is refused |
| Dataset.KeyLetters | ctbrowser/lib/DOM/dataset.cpp:48-62 | an uppercase letter is a dash and that letter in lower case, and a dash before a lowercase letter is refused |
| Dataset.OtherBytes | ctbrowser/lib/DOM/dataset.cpp:28-62 | every other byte is itself either way |
| Dataset.ValueIsOfFirst | ctbrowser/lib/DOM/dataset.cpp:66-76 | of several attributes of one name the first answers |
| Dataset.DatasetValue | ctbrowser/lib/DOM/dataset.cpp:66-76 | comparing converted names finds the attribute the key converts to |

## Left out

- The parser's `document::builder`, whose insertions are unchecked, is no step of the runs.
- Attribute namespaces and prefixes, `set_attribute_ns` and `remove_attribute_ns`: an attribute is its name and value.
- Document.Document.Create: the slab is a map from handles to values, so a pointer kept into a node across a write is not modelled, and handles are never recycled (the source's generations see to that).
- Document.Document.AttachShadow: whether an element's namespace and local name may host a shadow tree is a field of the node (`mayHost`); the mode and slot settings of the tree are left out, and so is the clean-up after a failed allocation.
- The 32-bit casts of indices in the write log; attribute and tag atoms are their texts.
- Composed cycles through shadow roots and templates: callers refuse them, and `DomRuns.RunKeepsCap` asks them to; nor may `set_template_content` be given a fragment that is already hosted.
- PseudoGrammar.ParsesExactlyTheGrammar: a name is what the code takes for one, any byte of 80 or more included, not the Name production of XML.
- JsonReader.JsonReader.ParseNumber: the value is the token; the double of `std::from_chars` is not part of this model, nor are literals out of its range.
- The native stack: the reader's recursion is bounded by its depth limit, its stack use is not modelled.
- NumberLayout.NumberToExponential: without an argument the shortest digits of `std::to_chars` are a parameter, as in `NumberToString`.
- NumberLayout.NumberToString: the shortest digits of `std::to_chars` are a parameter, asked to be stripped and, for an integer below 10^15, to denote it; that they round-trip for other doubles is the library's promise.
- `number_to_fixed`: its sign rule and its hand-over to ToString from 1e21 on are left out; so are ToNumber, parseFloat, parseInt and `trim_js_space`.
- `std::to_chars` never refuses in the model: its buffers hold every double at the digit counts the callers pass.
- Tables.Specials: printing the table as C++ source is left out, and so are the Unicode files, their download and their checksums.
- CaseMapping.UnicodeCase: that the special table maps to at most three non-zero code points is asked of the data.
- CaseMapping.ConvertsByDefaultExactly: that the data maps ASCII as Unicode's does is asked of it.
- The simdutf path of `base64_decode`: taken to agree with the loop, as the source says.
- `decode_uri` and `decode_uri_component` pass a constant to `decode`; `split_top_level` is not part of this model.
- Scheduler.PoolDrains: a task that never returns is not modelled, nor is the stop request; a task that submits or helps does so as a caller of its own. `parallel_for` is left out.
- Atoms.OneIdForEver: holds while the table has at most 2^32 strings, which is what a 32-bit id can tell apart.
- `dataset_entries`, which lists what `dataset_value` searches.
