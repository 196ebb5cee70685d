# HotDocs template metadata and answer sets in Dafny

This project models two parts of the HotDocs Open SDK.

**Templates (`HotDocs.Sdk/Template.cs`).** A template is a file name plus
assembly switches, a key and a location. The model covers these rules:

- the template type and native document type follow from the file extension, compared ignoring case;
- the switches `/nw`, `/naw` and `/ni` turn the interview off;
- only templates with a known, non-interview type generate a document;
- each document type except Unknown, XML and Native has a fixed extension; Native maps the template's own extension, and Unknown and XML are rejected;
- a locator is the `|`-separated plaintext `FileName|Switches|Key|location`, encrypted;
- `Locate` splits the decrypted locator back and rejects anything that is not exactly four fields.

The string operations these rules use from .NET are modelled in module `Text`:
ASCII lower-casing, `Contains`, `Split`/`Join` and `Path.GetExtension`. The
template object is a `class`, because `UpdateFileName` and `Locate` change its
fields. Its constructors throw on bad arguments, so they become static methods
returning a `Result`.

**Answer sets (`HotDocs.SdkTest/AnswerSetTest.cs`).** An answer is a named,
typed value tree. A leaf holds one value, which may be unanswered. A repeat
holds child nodes, nested to any depth. The resolver turns a list of repeat
indices into a value or a child count, following these rules:

- a missing index means 0;
- indices after a value are ignored;
- indices into an empty repeat give an unanswered value, not an error;
- a child count stops at the last child that holds an answered value.

The answer set document is read from pre-tokenised element events by a
recursive-descent parser; reading is proved to undo writing. A collection keeps
answers in a map keyed by the exact name and is filled in place by `ReadXml`.
The browser-interview document of the `ReadXml` test is written out event by
event, and each assertion of that test is proved as a lemma.

Name lookup is letter-case sensitive, as AnswerSetTest.cs:66 and 68 pin it:
"Author Full Name" is found and "author full name" is not. The test does not
pin an index past the end of a non-empty repeat, so the resolver returns
`None` there, meaning unspecified.

## Model

| member | source | states |
|---|---|---|
| Text.Lower | HotDocs.Sdk/Template.cs:117 | lower-casing keeps the length and lowers each character (ASCII letters) |
| Text.ContainsInConcat | HotDocs.Sdk/Template.cs:148 | an occurrence of a substring in either half is an occurrence in the concatenation |
| Text.Split | HotDocs.Sdk/Template.cs:212 | splitting on the pipe character gives one piece more than there are separators, and no piece holds a separator |
| Text.JoinSplit | HotDocs.Sdk/Template.cs:212 | joining the pieces of a split restores the string |
| Text.SplitJoin | HotDocs.Sdk/Template.cs:197 | splitting the join of separator-free pieces restores the pieces |
| Text.GetExtension | HotDocs.Sdk/Template.cs:117 | the extension is empty or a dot-led suffix of the name of length at least 2, with no further dot or separator |
| Text.ExtensionOfName | HotDocs.Sdk/Template.cs:173 | the extension of `base + ext` is `ext` for every well-formed extension, whatever the base |
| Templates.TypeOfExtensionMatchesTable | HotDocs.Sdk/Template.cs:117-135 | the seven known extensions map to their template types; every other extension gives Unknown |
| Templates.TemplateTypeOfName | HotDocs.Sdk/Template.cs:113-137 | a file name's template type depends only on its extension, lower-cased |
| Templates.TemplateTypeOf | HotDocs.Sdk/Template.cs:113-137 | a file name without an extension has template type Unknown |
| Templates.GeneratesDocument | HotDocs.Sdk/Template.cs:157-164 | only a template whose file name has an extension can generate a document |
| Templates.NativeOfExtensionMatchesTable | HotDocs.Sdk/Template.cs:173-186 | `.docx`, `.rtf`, `.hpt`→PDF, `.hft`→HFD, `.wpt`, `.ttx` have native document types; `.cmp` and all others give Unknown |
| Templates.NativeDocumentTypeOf | HotDocs.Sdk/Template.cs:169-188 | a file name without an extension has native document type Unknown, and the native document type is never Native |
| Templates.NativeTypeFollowsTemplateType | HotDocs.Sdk/Template.cs:157-188 | the native document type belongs to the template type; GeneratesDocument holds iff the native document type is known |
| Templates.HasInterview | HotDocs.Sdk/Template.cs:143-150 | empty switches always allow the interview |
| Templates.SuppressingSwitch | HotDocs.Sdk/Template.cs:147-148 | `/nw`, `/naw` or `/ni` in any letter case, anywhere in the switches, turns the interview off |
| Templates.InterviewNeedsEveryPart | HotDocs.Sdk/Template.cs:147-148 | switches allow the interview only if each part of them does; appending switches never restores it |
| Templates.GetDocExtension | HotDocs.Sdk/Template.cs:281-339 | Native with a null template throws ArgumentNullException; Unknown and XML throw; every extension it returns is empty or starts with a dot |
| Templates.GetDocExtensionMatchesTable | HotDocs.Sdk/Template.cs:285-337 | each listed document type has its fixed extension, with HTML, HTMLwDataURIs and MHTML all `.htm` |
| Templates.DocExtensionDefinedIffGenerates | HotDocs.Sdk/Template.cs:270-273 | the instance GetDocExtension succeeds exactly for templates that generate a document, and otherwise throws |
| Templates.DocExtension | HotDocs.Sdk/Template.cs:270-273 | the instance GetDocExtension returns a dot-led extension of at least four characters, and every failure is the unsupported-document-type error |
| Templates.NativeExtensionAsWritten | HotDocs.Sdk/Template.cs:301-313 | the Native branch gives an empty extension exactly for a template file name without one, and otherwise a dot-led extension |
| Templates.NativeBranchOfName | HotDocs.Sdk/Template.cs:297-315 | for every file name with an extension, Native maps `.hpt`, `.hft`, `.ttx` and `.wpt`, in exactly that letter case, to `.pdf`, `.hfd`, `.txt` and `.wpd`, and keeps any other extension unchanged |
| Templates.NativeBranchWithoutExtension | HotDocs.Sdk/Template.cs:301-313 | for a template file name without an extension, Native gives the empty extension |
| Templates.NativeExtensionIsCaseSensitive | HotDocs.Sdk/Template.cs:297-315 | "Letter.HPT" gets ".HPT" from the Native branch but ".pdf" from its native document type |
| Templates.NativeExtensionMatchesNativeType | HotDocs.Sdk/Template.cs:297-315 | with case-insensitive comparison, the Native extension equals the native document type's extension, up to the case of `.docx`/`.rtf` |
| Templates.NativeExtensionForMatches | HotDocs.Sdk/Template.cs:303-313 | the corrected per-extension Native mapping agrees with the document extension table |
| Templates.ParseLocator | HotDocs.Sdk/Template.cs:211-219 | a plaintext is accepted iff it holds exactly three pipe characters, that is four tokens; the fields are pipe-free; a rejection is InvalidLocator |
| Templates.PlaintextIsJoin | HotDocs.Sdk/Template.cs:197 | the plaintext is the pipe-join of file name, switches, key and location locator |
| Templates.LocatorRoundTrip | HotDocs.Sdk/Template.cs:195-219 | parsing the plaintext of four pipe-free fields gives those fields in order |
| Templates.ParsedLocatorRejoins | HotDocs.Sdk/Template.cs:212-219 | every accepted plaintext is the plaintext of the fields parsed from it |
| Templates.PlaintextPipeCount | HotDocs.Sdk/Template.cs:197 | the plaintext holds three separators plus every pipe character inside the fields |
| Templates.LocatorReadsBackIffPipeFree | HotDocs.Sdk/Template.cs:195-214 | the plaintext of a template's fields is accepted iff no field holds a pipe character, and then it reads back as those fields |
| Templates.PipeInKeyIsRejected | HotDocs.Sdk/Template.cs:195-214 | a template whose key is k, pipe, x gets a plaintext that is rejected as an invalid locator |
| Templates.CreateLocatorRoundTrip | HotDocs.Sdk/Template.cs:195-219 | a locator made by CreateLocator and decrypted by the inverse of its encryption parses back to the template's own fields, when no field holds a pipe character |
| Templates.NullToEmpty | HotDocs.Sdk/Template.cs:37-38 | a null switches or key argument becomes `""`; any other is stored verbatim |
| Templates.Template.constructor | HotDocs.Sdk/Template.cs:35-38 | the four fields are stored as given |
| Templates.Template.Create | HotDocs.Sdk/Template.cs:27-39 | a null or empty file name, then a null location, throw ArgumentException; otherwise a fresh template stores them unchanged, with switches and key normalised |
| Templates.Template.CreateForPackage | HotDocs.Sdk/Template.cs:47-57 | a null location throws ArgumentNullException; otherwise the manifest's main file name is stored |
| Templates.Template.UpdateFileName | HotDocs.Sdk/Template.cs:242-251 | a reported null or empty name throws and leaves FileName unchanged; a reported name replaces it; no report changes nothing |
| Templates.Template.Locate | HotDocs.Sdk/Template.cs:206-225 | a null or empty locator, a plaintext without four tokens, an empty file name and a bad updated name each throw; it succeeds iff none of these happens, and then the fields come from the parsed plaintext, with the key set after construction |
| Answers.Resolve | HotDocs.SdkTest/AnswerSetTest.cs:73-83 | only an explicit index can leave the result unspecified; the node reached is answered only if the tree is |
| Answers.FirstValue | HotDocs.SdkTest/AnswerSetTest.cs:77-81 | descending through first children never invents an answered value |
| Answers.GetValue | HotDocs.SdkTest/AnswerSetTest.cs:73-83 | an answered value found at any indices means the answer holds data |
| Answers.CountUpToLastAnswered | HotDocs.SdkTest/AnswerSetTest.cs:70-72 | the count is the position just after the last answered child; every child from the count on is unanswered |
| Answers.GetChildCount | HotDocs.SdkTest/AnswerSetTest.cs:70-72 | a positive child count means the answer holds data |
| Answers.CountPositiveIffAnswered | HotDocs.SdkTest/AnswerSetTest.cs:70-72 | a repeat counts children iff it holds an answered value |
| Answers.ResolveAppend | HotDocs.SdkTest/AnswerSetTest.cs:73-83 | resolving `first + second` is resolving `first` and then `second` from the node reached |
| Answers.MissingIndexIsZero | HotDocs.SdkTest/AnswerSetTest.cs:77-81 | appending index 0 never changes the value found |
| Answers.NoIndicesMeansZeros | HotDocs.SdkTest/AnswerSetTest.cs:77-83 | no indices find a value, the same as any number of zeros |
| Answers.IndicesPastValueIgnored | HotDocs.SdkTest/AnswerSetTest.cs:82-83 | once indices reach a value, extra indices give the same value and a child count of 0 |
| Answers.EmptyRepeatGivesUnanswered | HotDocs.SdkTest/AnswerSetTest.cs:75-76 | indices into an empty repeat give an unanswered value of the answer's type and a child count of 0 |
| Answers.AnsweredPath | HotDocs.SdkTest/AnswerSetTest.cs:61 | every answered tree has indices that reach an answered value |
| Answers.AnsweredIffSomeValueAnswered | HotDocs.SdkTest/AnswerSetTest.cs:61 | GetAnswered holds iff some list of indices finds an answered value |
| Answers.Answer.IsRepeated | HotDocs.SdkTest/AnswerSetTest.cs:57 | an answer that is not repeated has a child count of 0 |
| Answers.GetAnswered | HotDocs.SdkTest/AnswerSetTest.cs:61-62 | an answer that holds no data gives an unanswered value when asked without indices |
| AnswerXml.ParseNode | HotDocs.SdkTest/AnswerSetTest.cs:21-22 | a parsed node consumes a non-empty prefix of the events and leaves the rest |
| AnswerXml.ParseChildren | HotDocs.SdkTest/AnswerSetTest.cs:29-35 | a repeat's children consume a non-empty prefix up to the closing RptValue |
| AnswerXml.ParseAnswer | HotDocs.SdkTest/AnswerSetTest.cs:25-27 | an Answer element consumes a non-empty prefix of the events |
| AnswerXml.ParseAnswerSet | HotDocs.SdkTest/AnswerSetTest.cs:23-53 | an accepted document is framed by the AnswerSet start and end elements |
| AnswerXml.FlagAttr | HotDocs.SdkTest/AnswerSetTest.cs:58-59 | a flag written as an attribute reads back as the same flag, absent meaning true |
| AnswerXml.NodeStartsWithOpening | HotDocs.SdkTest/AnswerSetTest.cs:34 | a written node never starts with a closing RptValue |
| AnswerXml.NodeRoundTrip | HotDocs.SdkTest/AnswerSetTest.cs:29-35 | reading a written node gives the node back, including empty repeats, and leaves what follows |
| AnswerXml.ChildrenRoundTrip | HotDocs.SdkTest/AnswerSetTest.cs:29-35 | reading written children up to the closing RptValue gives the children back |
| AnswerXml.AnswerRoundTrip | HotDocs.SdkTest/AnswerSetTest.cs:25-36 | reading a written answer gives the answer back |
| AnswerXml.AnswerListRoundTrip | HotDocs.SdkTest/AnswerSetTest.cs:25-51 | reading written answers gives them back in order |
| AnswerXml.AnswerSetRoundTrip | HotDocs.SdkTest/AnswerSetTest.cs:23-53 | reading a written answer set gives the same answers in the same order |
| AnswerCollections.StoreAll | HotDocs.SdkTest/AnswerSetTest.cs:20-23 | storing the answers of a document one by one under their names (the order of storing is this model's choice): after storing, a name is present iff it was before or some answer carries it; unmentioned names keep their answer; answers stay under their own names |
| AnswerCollections.LastOfNameIsStored | HotDocs.SdkTest/AnswerSetTest.cs:20-23 | under this model's storing order, the last answer of a name in the document is the one stored under it |
| AnswerCollections.AnswerCollection.constructor | HotDocs.SdkTest/AnswerSetTest.cs:20 | a new collection is empty |
| AnswerCollections.AnswerCollection.AnswerCount | HotDocs.SdkTest/AnswerSetTest.cs:54 | the count is 0 exactly for an empty collection |
| AnswerCollections.AnswerCollection.TryGetAnswer | HotDocs.SdkTest/AnswerSetTest.cs:56-86 | an answer is found iff one is stored under exactly that name, and it carries that name; otherwise the result is None, not an error |
| AnswerCollections.AnswerCollection.ReadXml | HotDocs.SdkTest/AnswerSetTest.cs:20-53 | a document that parses stores its answers in order; one that does not leaves the collection unchanged |
| AnswerSetScenario.PairOfChildren | HotDocs.SdkTest/AnswerSetTest.cs:29-35 | a two-child repeat is written as its children between RptValue tags and takes the first child's type |
| AnswerSetScenario.ElementsAreWritten | HotDocs.SdkTest/AnswerSetTest.cs:25-51 | each expected answer is written as its Answer element of the document |
| AnswerSetScenario.DocumentReadsAsExpected | HotDocs.SdkTest/AnswerSetTest.cs:23-53 | the document reads as the four expected answers, with the paired empty RptValue as a repeat with no children |
| AnswerSetScenario.ExpectedIsStored | HotDocs.SdkTest/AnswerSetTest.cs:20-53 | reading the four answers into an empty collection stores each under its name |
| AnswerSetScenario.StoredNames | HotDocs.SdkTest/AnswerSetTest.cs:54 | the collection has four answers, and neither "author full name" nor "does not exist" is among them |
| AnswerSetScenario.EditorFullNameAnswers | HotDocs.SdkTest/AnswerSetTest.cs:56-64 | "Editor Full Name" is not repeated, is saved and user-extendible, is of type Text, is unanswered, and its value is unanswered Text and user-modifiable |
| AnswerSetScenario.AuthorFullNameChildCounts | HotDocs.SdkTest/AnswerSetTest.cs:69-72 | "Author Full Name" is repeated, with child counts 1, 1 and 0 at no index, index 0 and index 1 |
| AnswerSetScenario.AuthorFullNameExplicitIndices | HotDocs.SdkTest/AnswerSetTest.cs:73-76 | (0,0) is answered "A"; (0,1), (1) and (1,0) are unanswered |
| AnswerSetScenario.AuthorFullNameFallbackIndices | HotDocs.SdkTest/AnswerSetTest.cs:77-83 | no index, (0) and (0,0,0) all give answered "A" |
| AnswerSetScenario.ReadXmlTest | HotDocs.SdkTest/AnswerSetTest.cs:18-87 | the collection read from the document has four answers; exact names are found and the lower-cased and missing names are not |

## Left out

- `HotDocs.Sdk.Cloud/ClientBase.cs` in full: network clients, configuration lookups and stream copying, with no template or answer logic.
- `Template.Title` and `GetManifest`: they parse the template manifest, which is not part of this model.
- `GetFullPath`: it joins a directory from the file system with the file name.
- The `Switches` setter: it can store null, which `HasInterview` treats like `""`. The model's field always holds a string.
- `Util.EncryptString`/`DecryptString` are foreign crypto. `CreateLocator` and `Locate` take them as function parameters. The round trip is stated on the plaintext, so the two calls are assumed to be inverse.
- `TemplateLocation` is reduced to the locator string it produces and is recreated from. `TemplateLocation.Locate` is taken to recreate it unchanged and never to fail. `GetUpdatedFileName` becomes the `FileNameUpdate` parameter of `UpdateFileName` and `Locate`.
- The package constructor reads the main template's file name from the package manifest. That name is a parameter of `CreateForPackage`.
- Text.Lower: lowers the ASCII letters only, not full Unicode case mapping, and ignores the culture of `ToLower`.
- Text.GetExtension: does not throw on characters .NET considers invalid in a path.
- Templates.NativeOfExtension: compares the ordinally lower-cased extension, where NativeDocumentType calls the culture-aware `string.Compare(ext, lit, true)`. That comparison can disregard ignorable characters such as a soft hyphen, which the ordinal switch of TemplateType does not. For such a name the source's NativeDocumentType and TemplateType can disagree, so NativeTypeFollowsTemplateType and DocExtensionDefinedIffGenerates hold for the model only.
- Templates.LocatorRoundTrip: requires pipe-free fields, because CreateLocator (Template.cs:197) neither escapes nor rejects a `|` inside a field. LocatorReadsBackIffPipeFree and PipeInKeyIsRejected state what happens otherwise: such a template gets a locator that Locate rejects as invalid.
- `GetDocExtension` takes the template's file name (None for a null template) instead of the template object.
- XML lexing is not modelled: documents are pre-tokenised element events, and one `ValueElem` event stands for a whole typed value element. Attributes of `<AnswerSet>` are ignored.
- Only text and date payloads are modelled. Number, true/false and multiple-choice payloads are not.
- Answers.GetValue: returns None (unspecified) for an index past the end of a non-empty repeat, because the test does not pin that case. Negative indices are excluded by the type `nat`.
- `GetValue<T>` with a mismatching `T` is not modelled, nor are setters, which would grow the tree.
- Writing is modelled only at the event level, for the round trip: reading undoes writing, but writing what was read need not restore the events, because a flag written as `true` is written back as absent.
- The collection's insertion order is not kept.
- AnswerCollections.LastOfNameIsStored: a later answer of a name replacing an earlier one is this model's choice. The test's document holds four distinct names, so no source line pins what a repeated name does.
- AnswerCollections.AnswerCollection.ReadXml: merges the document into the existing answers. The test reads into an empty collection, so whether earlier answers are cleared first is not pinned.
- The value read from a value element is answered iff it lacks `unans="true"`. An element with neither a body nor `unans` is not pinned down by the test.

## Findings

| source | as written | input that shows it | evidently intended | confidence | as-written member | corrected member |
|---|---|---|---|---|---|---|
| HotDocs.Sdk/Template.cs:303-313 | the Native branch compares the template extension with `.hpt`, `.hft`, `.ttx` and `.wpt` case-sensitively, while NativeDocumentType (lines 173-186) and TemplateType (line 117) ignore case | template file name "Letter.HPT": the Native branch gives ".HPT", while its native document type PDF gives ".pdf" | compare ignoring case, so an upper-case `.HPT` template assembles to `.pdf` either way | medium, not executed | Templates.NativeExtensionIsCaseSensitive | Templates.NativeExtensionMatchesNativeType |

`GetDocExtension` keeps the as-written Native branch, `NativeExtensionAsWritten`.
The corrected branch is `NativeExtension`. Nothing else in the model depends on
the Native branch.
