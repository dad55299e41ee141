# java-xml: a Dafny model of the XmlDocument facade and its exception taxonomy

The java-xml library (package `com.nfbsoftware`) wraps a W3C DOM tree in a handle class,
`XmlDocument`. A handle is a pair: the owning document (`mDocument`) and a current node
(`mRootNode`). Every operation works relative to the current node. The operations cover:

- slash-separated path lookup and auto-creation of missing elements;
- element-only indexing and counting;
- reading and writing text and CDATA values;
- attribute reads and edits;
- removing and replacing children;
- attaching nodes from the same document (a move) or from another one (a deep copy);
- XPath-driven selection and removal.

The library's errors are checked exceptions (`XmlDocumentCheckedException`) drawn from a fixed
code table, and runtime exceptions (`XmlDocumentRuntimeException`) registered in a global code
registry (`NfbRuntimeException`). Both are graded by `Severity`.

This project models that core, states what each operation promises, and proves it.

- **Document.** A document is a `State`: a forest of node trees with unique integer identifiers
  (module `Dom`, on the tree algebra of `DomTree`).
  - Tree 0 is the document node. The other trees are nodes attached nowhere, such as created,
    removed, replaced or cloned subtrees.
  - A node is an `Element` with a name, an attribute list and a child list. It can also be a
    `Text`, a `CData` section, a `Comment`, another node kind, or the document node (`DocRoot`).
  - The DOM primitives the source calls are functions on `State`: `createElement`,
    `appendChild` (which moves a node attached elsewhere), `removeChild`, `replaceChild`,
    `getParentNode`, `cloneNode` and `NamedNodeMap` edits. They follow sections 1.1.1 and 1.2 of
    DOM Level 2 Core.
- **Objects.** `XmlDocuments.Document` is the shared document object, a class with one `state`
  field. `XmlDocuments.XmlDocument` is the handle, a class with the fields `mDocument` and
  `mRootNode`. Its methods change the shared document in place. Each method's contract ties the
  new state and its answer to a pure function of the old state:
  - `Handlers`: creation, attachment and cloning;
  - `Indexed`: indexed access and replacement;
  - `Lookup`: path lookups;
  - `AttributeOps`: attributes;
  - `Values`: text and CDATA values;
  - `Queries`: XPath queries;
  - `Rebuild`: `replaceAllChildren`.
- **Properties.** Lemmas prove what the source promises of those functions:
  - round trips (set then get);
  - idempotence of auto-creation;
  - copies structurally equal to their source and independent of it;
  - "nothing else changes";
  - the exact error each path surfaces.
- **Loops.** The source's loops are `while` loops with invariants, proved equal to the specifying
  functions. These are:
  - the counting loops of `getElementChildNodesLength` and `getElementChildByIndex`;
  - the value loops;
  - the sibling walk of `getChildNodeByTag`;
  - the lookup and creation loops of `prgCreateChildByName`;
  - the three loops of `replaceAllChildren`;
  - the detaching loop of `removeChildrenWithXpath`;
  - the argument-copying loop of the exception constructors.
- **Exceptions.** Exceptions are values of the `Throwables.Throwable` datatype.
  - `XmlDocumentCheckedException` holds the code table and the code-selection rules of every
    constructor.
  - `XmlDocumentRuntimeException` holds GENERAL_FATAL_ERROR and its wrapping constructors.
  - `NfbRuntimeException` holds the code registry, a class with a `map` field, plus argument
    normalisation and the severity names.
  - `Severity` holds the pure level mappings.
  - `Outcomes` describes how the facade builds and re-wraps exceptions.

Where a doc comment and the code disagree, the model follows the code. These are the places:

- **Path resolution backtracks.** When a child named after a segment leads nowhere, the search
  tries the later siblings of that name. So `x/z` finds `z` under the second `x`.
- **`getChild(path)` returns null when nothing is found.** The `IXmlElement` documentation says
  it raises CHILD_NOT_FOUND.
- **`createChildren(path)` answers the deepest element.** Its interface documentation says the
  first element.
- **`removeChildrenWithXpath` answers null on zero matches**, not an empty list. So
  `removeChildWithXpath` then fails with GENERAL_ERROR.
- **`addToChild` takes the element of the child's document**, not the child's current node.
- **`getChildAttribute` fails for a missing attribute.** It raises GENERAL_ERROR, not the
  documented `""`. See Findings.
- **`registerCode` ignores a second registration of a name.** Its comment says an exception is
  thrown.

## Model

| member | source | states |
|---|---|---|
| Severity.AsIntInvertsAsString | src/main/java/com/nfbsoftware/util/Severity.java:29-60 | asString yields a one-letter tag, and asInt of that tag gives back each of the six levels; any other int encodes as "E", which decodes to ERROR |
| Severity.AsStringAfterAsInt | src/main/java/com/nfbsoftware/util/Severity.java:29-60 | encoding a decoded string gives its first letter upper-cased when that letter names a level, and "E" otherwise |
| Severity.AsIntReadsFirstLetterOnly | src/main/java/com/nfbsoftware/util/Severity.java:47-60 | two non-empty strings whose first letters agree up to case decode to the same level |
| Severity.AsIntCaseInsensitive | src/main/java/com/nfbsoftware/util/Severity.java:47-60 | every level decodes from its lower-case letter; "fatal" and "Info" decode by their first letter; an unknown letter decodes to ERROR |
| Severity.FailureLevels | src/main/java/com/nfbsoftware/util/Severity.java:66-79 | among the six levels, FATAL, ERROR and WARNING are failures and INFORMATIONAL, SUCCESS and DEBUG are successes |
| Severity.FailureIsAtOrAboveWarning | src/main/java/com/nfbsoftware/util/Severity.java:66-96 | isFailure(s) holds exactly when atOrAbove(s, WARNING) does |
| Severity.AtOrAboveIsTotalOrder | src/main/java/com/nfbsoftware/util/Severity.java:81-96 | atOrAbove is reflexive, total, transitive and antisymmetric; the documented example holds: INFORMATIONAL is not at or above WARNING but is at or above DEBUG |
| NfbRuntimeException.NormaliseArgsProperties | src/main/java/com/nfbsoftware/exception/NfbRuntimeException.java:175-200 | the stored argument array keeps the caller's length and nulls; every other entry is serializable, with serializable entries kept as they are; storing again changes nothing |
| NfbRuntimeException.FillArgs | src/main/java/com/nfbsoftware/exception/NfbRuntimeException.java:175-200 | the index loop filling the array stores each argument's normal form (null stays null, a non-serializable value becomes its string), and a null array becomes empty; the loop of XmlDocumentCheckedException.java:480-505 is the same |
| NfbRuntimeException.Construct | src/main/java/com/nfbsoftware/exception/NfbRuntimeException.java:168-201 | the code-based constructor keeps code, debug information and root cause, stores the normalised arguments, and always sets severity FATAL |
| NfbRuntimeException.SeverityNameAgreesWithTag | src/main/java/com/nfbsoftware/exception/NfbRuntimeException.java:283-295 | each level's long name begins with the one-letter tag Severity.asString gives it, and an unknown value reads as "ERROR" |
| NfbRuntimeException.SeverityNamesDistinct | src/main/java/com/nfbsoftware/exception/NfbRuntimeException.java:283-295 | the six names FATAL, ERROR, WARNING, INFO, SUCCESS and DEBUG differ, and the default branch gives the ERROR name |
| NfbRuntimeException.CodeRegistry.constructor | src/main/java/com/nfbsoftware/exception/NfbRuntimeException.java:38 | the code map starts empty |
| NfbRuntimeException.CodeRegistry.GetCode | src/main/java/com/nfbsoftware/exception/NfbRuntimeException.java:421-427 | getCode answers a code exactly for a registered name, and it is the code registered under that name |
| NfbRuntimeException.CodeRegistry.RegisterCode | src/main/java/com/nfbsoftware/exception/NfbRuntimeException.java:435-449 | the map gains the code under its name only when the name is absent, and is otherwise left as it was |
| NfbRuntimeException.RegisterFirstWins | src/main/java/com/nfbsoftware/exception/NfbRuntimeException.java:435-449 | after registering, the name is bound; it is bound to the earlier code when one was there, every other name is untouched, and no name is lost |
| NfbRuntimeException.RegisterIdempotent | src/main/java/com/nfbsoftware/exception/NfbRuntimeException.java:435-449 | registering a second time changes nothing, the same code or another with the same name |
| XmlDocumentCheckedException.CodeNamesDistinct | src/main/java/com/nfbsoftware/xml/exception/XmlDocumentCheckedException.java:33-74 | the table has eleven codes, and no two share a name |
| XmlDocumentCheckedException.CodeTable | src/main/java/com/nfbsoftware/xml/exception/XmlDocumentCheckedException.java:33-74 | every table code belongs to this class, has no mapped code and a name starting "XmlDocument:"; GENERAL_ERROR alone is ERROR; CHILD_NOT_FOUND and CLONE_FAILED alone are INFORMATIONAL; the rest are WARNING; the default code is GENERAL_ERROR, a failure |
| XmlDocumentCheckedException.CodeSeverityRange | src/main/java/com/nfbsoftware/xml/exception/XmlDocumentCheckedException.java:517-521 | every code's severity is ERROR, WARNING or INFORMATIONAL, and getDefaultCode is GENERAL_ERROR |
| XmlDocumentCheckedException.WithCodeDefaults | src/main/java/com/nfbsoftware/xml/exception/XmlDocumentCheckedException.java:148-311 | the code-based constructors keep code, arguments and root cause; without an explicit severity they take the code's, and with one they take it |
| XmlDocumentCheckedException.WrapUnmappedIsGeneralError | src/main/java/com/nfbsoftware/xml/exception/XmlDocumentCheckedException.java:321-510 | wrapping a cause whose code is from the table, or any cause that is not a checked exception, gives GENERAL_ERROR with the cause kept as root cause and argument, under each of the four wrapping constructors (severity ERROR, or the given one) |
| XmlDocumentCheckedException.WrapFollowsMapping | src/main/java/com/nfbsoftware/xml/exception/XmlDocumentCheckedException.java:321-445 | a cause whose code maps to a code of this class hands on the mapped code and, for (debug, cause), its arguments and the mapped code's severity |
| XmlDocumentCheckedException.WrapVariantsDisagreeOnForeignMapping | src/main/java/com/nfbsoftware/xml/exception/XmlDocumentCheckedException.java:321-510 | a code mapped to another class's code: (debug, cause) falls back to GENERAL_ERROR, while the other three constructors adopt the foreign code |
| XmlDocumentCheckedException.WrapWithArgStoresOneArgument | src/main/java/com/nfbsoftware/xml/exception/XmlDocumentCheckedException.java:401-445 | a null argument gives no arguments; a serializable one is stored as it is; any other is stored as its string; the root cause is kept |
| XmlDocumentCheckedException.WrapNullCause | src/main/java/com/nfbsoftware/xml/exception/XmlDocumentCheckedException.java:321-351 | wrapping a null cause gives GENERAL_ERROR with a single null argument and no root cause |
| XmlDocumentRuntimeException.NewWithCode | src/main/java/com/nfbsoftware/xml/exception/XmlDocumentRuntimeException.java:78-165 | each construction first registers GENERAL_FATAL_ERROR (first registration wins), then builds the code-based exception, whose root cause is the one passed |
| XmlDocumentRuntimeException.NewWrapping | src/main/java/com/nfbsoftware/xml/exception/XmlDocumentRuntimeException.java:176-205 | registers GENERAL_FATAL_ERROR, then builds the (debug, cause) exception or fails as the cast does |
| XmlDocumentRuntimeException.NewWrappingArg | src/main/java/com/nfbsoftware/xml/exception/XmlDocumentRuntimeException.java:216-259 | registers GENERAL_FATAL_ERROR, then builds the (arg, debug, cause) exception |
| XmlDocumentRuntimeException.SeverityOfConstructions | src/main/java/com/nfbsoftware/xml/exception/XmlDocumentRuntimeException.java:94-259 | code-based construction reports FATAL; the wrapping constructors never set a severity, which stays 0 and reads "ERROR" |
| XmlDocumentRuntimeException.WrapOutcomes | src/main/java/com/nfbsoftware/xml/exception/XmlDocumentRuntimeException.java:176-205 | a RuntimeException from outside the library fails with ClassCastException; a checked cause gives GENERAL_FATAL_ERROR with the cause as argument; a null cause gives a single null argument; a cause of GENERAL_FATAL_ERROR keeps its code |
| XmlDocumentRuntimeException.GeneralFatalErrorRegistered | src/main/java/com/nfbsoftware/xml/exception/XmlDocumentRuntimeException.java:78-80 | after any construction the registry binds the general code's name, to GENERAL_FATAL_ERROR when it was free |
| Outcomes.RaisedAreXmlChecked | src/main/java/com/nfbsoftware/xml/exception/XmlDocumentCheckedException.java:148-198 | exceptions raised from a table code, and GENERAL_ERROR built around a cause, are of the facade's own class, carry that code and keep the cause |
| Outcomes.RewrapIsGeneralError | src/main/java/com/nfbsoftware/xml/exception/XmlDocumentCheckedException.java:321-351 | re-wrapping the facade's own exception or any other always gives GENERAL_ERROR, with the cause as root cause and argument |
| Paths.Split | src/main/java/com/nfbsoftware/xml/XmlDocument.java:1928 | every segment StringUtils.split yields is non-empty and free of "/" |
| Paths.SplitConcat | src/main/java/com/nfbsoftware/xml/XmlDocument.java:1928 | splitting at a separator gives the segments of the left side followed by those of the right |
| Paths.SplitIgnoresEmptySegments | src/main/java/com/nfbsoftware/xml/XmlDocument.java:1928 | doubled, leading and trailing separators change nothing: "a//b" and "/a/b/" split like "a/b" |
| Paths.SplitSegment | src/main/java/com/nfbsoftware/xml/XmlDocument.java:1928 | a segment without separator splits into itself |
| Paths.ResolveAmongFirst | src/main/java/com/nfbsoftware/xml/XmlDocument.java:1951-1976 | among siblings, the first child with the segment's name whose descent succeeds decides; a failed descent moves on to the later siblings |
| Paths.ResolveAmongNone | src/main/java/com/nfbsoftware/xml/XmlDocument.java:1951-1976 | resolution among the children fails exactly when no child with the segment's name leads to the rest of the path |
| Paths.ResolveSound | src/main/java/com/nfbsoftware/xml/XmlDocument.java:1951-1976 | what resolution finds is a node of the tree; for a non-empty path it lies strictly below the start and bears the last segment as its name |
| Paths.BacktrackExample | src/main/java/com/nfbsoftware/xml/XmlDocument.java:1951-1976 | "x/z" over two x siblings, only the second holding z, finds that z |
| Paths.AnyKindExample | src/main/java/com/nfbsoftware/xml/XmlDocument.java:1960-1962 | names are compared whatever the node kind: "#comment" reaches a comment and "#text" a text node |
| Paths.ChildNodeByTag | src/main/java/com/nfbsoftware/xml/XmlDocument.java:1951-1976 | the recursion on the segment index with its sibling loop answers exactly what resolution of the remaining segments finds |
| Paths.FirstNamed | src/main/java/com/nfbsoftware/xml/XmlDocument.java:2102 | the position answered is that of a child with the name, and no earlier child has the name; none is answered exactly when no child has it |
| Paths.ResolveOne | src/main/java/com/nfbsoftware/xml/XmlDocument.java:2102 | a one-segment lookup finds the first child with that name |
| Paths.Walk | src/main/java/com/nfbsoftware/xml/XmlDocument.java:2099-2126 | the lookup loop takes at most as many steps as there are segments |
| Paths.WalkComplete | src/main/java/com/nfbsoftware/xml/XmlDocument.java:2099-2129 | a walk that takes every segment reaches the node full resolution finds |
| Paths.WalkStops | src/main/java/com/nfbsoftware/xml/XmlDocument.java:2102-2104 | a walk that stops early stops at a node with no child named after the next segment |
| Paths.WalkOn | src/main/java/com/nfbsoftware/xml/XmlDocument.java:2102-2125 | one turn of the loop goes on through the first child named after the segment |
| Paths.WalkHalts | src/main/java/com/nfbsoftware/xml/XmlDocument.java:2102-2104 | the loop stops at the first segment no child is named after |
| Lookup.ResolvedInState | src/main/java/com/nfbsoftware/xml/XmlDocument.java:1924-1936 | the node found is in the document as resolution saw it; it lies inside the start, strictly below it for a non-empty path |
| Lookup.ChildByNameSpec | src/main/java/com/nfbsoftware/xml/XmlDocument.java:1909-1936 | prvGetChildByName answers the node resolution finds from the current node, or nothing; an empty path answers the current node; only a null current node with a non-empty path fails, with a NullPointerException |
| Lookup.ChildByNameSeparators | src/main/java/com/nfbsoftware/xml/XmlDocument.java:1924-1936 | inserting an extra separator into a path does not change what the lookup finds |
| Lookup.GetChildNamedSpec | src/main/java/com/nfbsoftware/xml/XmlDocument.java:761-786 | getChild(path) answers a new document holding a copy of the node found, equal to it up to identifiers; it answers null exactly when nothing is found; the receiving document is untouched |
| Lookup.ValueLookupSpec | src/main/java/com/nfbsoftware/xml/XmlDocument.java:1037-1061 | getNodeValue and getCDATAValue read the text and CDATA value of the node found, or "" when nothing is found; they fail only for a null node with a non-empty path |
| Lookup.ChildValueSpec | src/main/java/com/nfbsoftware/xml/XmlDocument.java:987-1029 | getChildValue and getCDATASection answer what getNodeValue and getCDATAValue answer; they fail exactly when those do, with GENERAL_ERROR caused by the lookup's own error |
| Lookup.SetValueThenNodeValue | src/main/java/com/nfbsoftware/xml/XmlDocument.java:1037-1061 | after a successful setValue(v), getNodeValue of the empty path reads v (null as "") |
| Lookup.GetBelow | src/main/java/com/nfbsoftware/xml/XmlDocument.java:1376 | a node inside another is the same node seen from the document as seen inside its ancestor |
| Lookup.DetachBelow | src/main/java/com/nfbsoftware/xml/XmlDocument.java:1376 | detaching a node gives no node a subtree it did not have, and leaves the detached node inside no other node |
| Lookup.RemoveNamedSpec | src/main/java/com/nfbsoftware/xml/XmlDocument.java:1365-1384 | removeChild(path) detaches exactly the node found when it has a parent: the node keeps its subtree, has no parent, and nodes apart from it are unchanged; every failure leaves the document as it was and is GENERAL_ERROR |
| Lookup.RemovedNotFoundAgain | src/main/java/com/nfbsoftware/xml/XmlDocument.java:1365-1384 | after removeChild(path) of a non-empty path, the same lookup no longer finds the removed node |
| Lookup.RemoveThenGetChildExample | src/test/java/com/nfbsoftware/xml/XmlDocumentTest.java:112-127 | removeChild("b") under r detaches b, and a second getChild("b") answers null |
| Lookup.RemoveNamedExample | src/main/java/com/nfbsoftware/xml/XmlDocument.java:1365-1384 | in the example, the removal answers b, prunes it from r and leaves it a detached root |
| Lookup.GetChildRemovedExample | src/main/java/com/nfbsoftware/xml/XmlDocument.java:761-786 | in the document after the removal, getChild("b") under r answers null |
| Children.ElementKids | src/main/java/com/nfbsoftware/xml/XmlDocument.java:858-879 | the element children are elements of the child list, no more of them than children |
| Children.ElementKidsComplete | src/main/java/com/nfbsoftware/xml/XmlDocument.java:858-879 | a child is listed among the element children exactly when it is an element |
| Children.NonElementInvisible | src/main/java/com/nfbsoftware/xml/XmlDocument.java:2214-2248 | inserting a child that is not an element anywhere changes neither the element indexes nor the count |
| Children.ElementKidsPosition | src/main/java/com/nfbsoftware/xml/XmlDocument.java:2214-2248 | the index-th element child is preceded by exactly index element children |
| Children.ElementChildNodesLength | src/main/java/com/nfbsoftware/xml/XmlDocument.java:858-879 | the counting loop answers the number of element children |
| Children.ElementPos | src/main/java/com/nfbsoftware/xml/XmlDocument.java:2214-2248 | the k-th element child sits in the full child list where exactly k element children precede it |
| Children.ElementKidsAround | src/main/java/com/nfbsoftware/xml/XmlDocument.java:1347 | taking an element child out, or putting a node in its place, edits the element list at the same index |
| Children.ElementChildByIndex | src/main/java/com/nfbsoftware/xml/XmlDocument.java:2214-2248 | the loop answers the index-th element child, INVALID_INDEX outside the range, and a NullPointerException for a null node |
| Indexed.RootNode | src/main/java/com/nfbsoftware/xml/XmlDocument.java:61-66 | the current node of a handle is null exactly when mRootNode is, and otherwise the node with that identifier |
| Indexed.CountMatchesPositions | src/main/java/com/nfbsoftware/xml/XmlDocument.java:835-904 | getChildrenCount and getChildCount agree; exactly the indexes below the count give a child from getElementChildByIndex; both fail only for a null node, with GENERAL_ERROR |
| Indexed.CopyElement | src/main/java/com/nfbsoftware/xml/XmlDocument.java:291-300 | create(node) of an element fails only with CLONE_FAILED, and otherwise answers the element's copy in its own document |
| Indexed.GetChildAtSpec | src/main/java/com/nfbsoftware/xml/XmlDocument.java:689-709 | getChild(index) answers exactly for positions of element children that can be copied, with a copy of that child in a new document; every failure, out of range included, is GENERAL_ERROR |
| Indexed.ElementInState | src/main/java/com/nfbsoftware/xml/XmlDocument.java:2214-2248 | the index-th element child of a node of the document is a child of that node in the document |
| Indexed.ElementAtPos | src/main/java/com/nfbsoftware/xml/XmlDocument.java:2214-2248 | getElementChildByIndex of an index in range answers the child at ElementPos |
| Indexed.DetachKid | src/main/java/com/nfbsoftware/xml/XmlDocument.java:1347 | detaching the j-th child removes that entry from the child list, and the child keeps its subtree, attached nowhere |
| Indexed.RemoveAtSpec | src/main/java/com/nfbsoftware/xml/XmlDocument.java:1336-1359 | removeChild(index) keeps the document valid with all its nodes; it fails, changing nothing, exactly when getElementChildByIndex does (INVALID_INDEX out of range) |
| Indexed.RemoveAtTakesOut | src/main/java/com/nfbsoftware/xml/XmlDocument.java:1336-1359 | removeChild(index) takes exactly the index-th element child out of the child list, keeps its subtree, leaves it parentless, and answers a handle on it; nodes apart from it are unchanged |
| Indexed.RemoveAtElements | src/main/java/com/nfbsoftware/xml/XmlDocument.java:1336-1359 | after removeChild(index) the element children are the old ones without the index-th |
| Indexed.ElementAtShift | src/main/java/com/nfbsoftware/xml/XmlDocument.java:1336-1359 | taking out the index-th element child moves every later element child down one index |
| Indexed.RemoveAtShifts | src/main/java/com/nfbsoftware/xml/XmlDocument.java:1336-1359 | after removeChild(index) the count drops by one and the later children move up a position |
| Indexed.ExchangeKeeps | src/main/java/com/nfbsoftware/xml/XmlDocument.java:1558 | an exchange keeps the document valid and loses none of its nodes; a failed one changes none |
| Indexed.ReplaceChildKeeps | src/main/java/com/nfbsoftware/xml/XmlDocument.java:1546-1600 | a successful replaceChild keeps the document valid and every node in it |
| Indexed.ExchangeLocal | src/main/java/com/nfbsoftware/xml/XmlDocument.java:1558 | replacing o by a node of the same document from outside p succeeds exactly when p takes the node and it is not p or above it; the node then stands in o's place, o keeps its subtree attached nowhere, and other nodes are unchanged |
| Indexed.ExchangeForeign | src/main/java/com/nfbsoftware/xml/XmlDocument.java:1558 | replacing by a node of another document succeeds exactly when the node is not null, can be copied, is not a null text, and p takes its kind; the copy then stands in o's place |
| Indexed.ExchangeAt | src/main/java/com/nfbsoftware/xml/XmlDocument.java:1558 | with nothing to put in, the exchange fails; with a node from outside p, it succeeds exactly when p takes the node (the document node refusing a second element), and the node stands where o stood |
| Indexed.ReplaceAtSpec | src/main/java/com/nfbsoftware/xml/XmlDocument.java:1546-1569 | replaceChild(index, newChild) keeps the document valid and its nodes; with no index-th element child (INVALID_INDEX) or nothing to put in, it fails changing nothing |
| Indexed.ReplaceAtExchanges | src/main/java/com/nfbsoftware/xml/XmlDocument.java:1546-1569 | for an index in range the call is the exchange of the child at ElementPos |
| Indexed.ReplaceAtAccepts | src/main/java/com/nfbsoftware/xml/XmlDocument.java:1546-1569 | with a node from outside the current node, the call succeeds exactly when the index-th element child exists and the current node takes the node |
| Indexed.ExchangeElements | src/main/java/com/nfbsoftware/xml/XmlDocument.java:1558 | a successful exchange of an element child puts the new node's entry at its index among the element children |
| Indexed.ReplaceAtPlaces | src/main/java/com/nfbsoftware/xml/XmlDocument.java:1546-1569 | a successful replaceChild(index, newChild) puts the node at that index among the element children; the old child keeps its subtree, attached nowhere, and is the one answered |
| Indexed.ReplaceNamedExchanges | src/main/java/com/nfbsoftware/xml/XmlDocument.java:1575-1600 | the node the lookup finds is exchanged in its parent |
| Indexed.ReplaceNamedSpec | src/main/java/com/nfbsoftware/xml/XmlDocument.java:1575-1600 | replaceChild(path, newChild) keeps the document valid and its nodes, and a failure changes none; nothing found is CHILD_NOT_FOUND, a null node a wrapped NullPointerException, and no parent or nothing to put in fails |
| Indexed.ReplaceNamedFound | src/main/java/com/nfbsoftware/xml/XmlDocument.java:1575-1600 | a successful call answers the node the lookup found, which had a parent; with a node from outside that parent, the found node keeps its subtree and is attached nowhere |
| Indexed.ReplaceNamedPlaces | src/main/java/com/nfbsoftware/xml/XmlDocument.java:1575-1600 | with a node from outside the parent, the node put in stands exactly where the found node stood in its parent's child list |
| Indexed.CopyLoop | src/main/java/com/nfbsoftware/xml/XmlDocument.java:913-977 | the loop of getChildren and getChildrenByName answers every element's copy in order, or CLONE_FAILED at the first that cannot be copied |
| Indexed.Named | src/main/java/com/nfbsoftware/xml/XmlDocument.java:947-977 | the selection keeps exactly the elements with the name, each from the list |
| Indexed.AllChildrenAsGetChild | src/main/java/com/nfbsoftware/xml/XmlDocument.java:913-939 | getChildren answers as many copies as getChildrenCount counts, the i-th being what getChild(i) answers; it fails exactly when some element child cannot be copied, or for a null node |
| Indexed.NamedChildrenSpec | src/main/java/com/nfbsoftware/xml/XmlDocument.java:947-977 | getChildrenByName answers copies of exactly the element children with that name, in order |
| Values.NodeTextValue | src/main/java/com/nfbsoftware/xml/XmlDocument.java:1094-1110 | the child loop answers the value of the first text child (null only when that child's own value is null), or "" when there is no text child |
| Values.CDataTextValue | src/main/java/com/nfbsoftware/xml/XmlDocument.java:1150-1166 | the child loop answers the value of the first CDATA child, or "" when there is none |
| Values.TextPos | src/main/java/com/nfbsoftware/xml/XmlDocument.java:1647-1654 | the position of the first text child: a text child, with no text child before it |
| Values.FirstTextAt | src/main/java/com/nfbsoftware/xml/XmlDocument.java:1651 | overwriting the first text child with a text node keeps it the first text child |
| Values.FirstCDataAt | src/main/java/com/nfbsoftware/xml/XmlDocument.java:1651 | putting one non-CDATA child in place of another leaves the first CDATA child as it was |
| Values.FirstAppend | src/main/java/com/nfbsoftware/xml/XmlDocument.java:1657-1661 | appending a child keeps the first child of each kind, unless there was none of the new child's kind |
| Values.AppendNewSpec | src/main/java/com/nfbsoftware/xml/XmlDocument.java:1659-1660 | appending a new node makes it the last child when the node takes its kind, fails with HIERARCHY_REQUEST_ERR otherwise, and leaves other nodes alone |
| Values.SetThenGetText | src/main/java/com/nfbsoftware/xml/XmlDocument.java:1633-1662 | setTextValue fails only on a null node, or when a non-empty value must be appended where no text child is allowed; otherwise the text value reads back as set (null as ""), the first CDATA child is untouched, and nodes apart are unchanged |
| Values.SetFirstText | src/main/java/com/nfbsoftware/xml/XmlDocument.java:1647-1653 | overwriting the first text child, even with "", makes the text value read back as it, and nothing apart changes |
| Values.SetCDataKeepsFirst | src/main/java/com/nfbsoftware/xml/XmlDocument.java:1670-1694 | setCDATASection appends only a non-empty value, as the last child; the observed CDATA value becomes that value only when there was no CDATA child before; the text value is untouched |
| Attributes.Names | src/main/java/com/nfbsoftware/xml/XmlDocument.java:2185-2205 | the name list has one entry per attribute, the i-th being the i-th attribute's name |
| Attributes.GetAttr | src/main/java/com/nfbsoftware/xml/XmlDocument.java:603 | getNamedItem finds a value exactly when the name is among the attribute names |
| Attributes.GetAfterSet | src/main/java/com/nfbsoftware/xml/XmlDocument.java:1606-1625 | after setting, the attribute reads back as the value set |
| Attributes.GetAfterSetOther | src/main/java/com/nfbsoftware/xml/XmlDocument.java:1606-1625 | setting one attribute leaves every other attribute as it was |
| Attributes.SetAttrNames | src/main/java/com/nfbsoftware/xml/XmlDocument.java:1606-1625 | setting updates in place when the name is present, and otherwise adds the name at the end |
| Attributes.SetAttrUnique | src/main/java/com/nfbsoftware/xml/XmlDocument.java:1606-1625 | setting keeps the attribute names unique |
| Attributes.RemoveAttrSpec | src/main/java/com/nfbsoftware/xml/XmlDocument.java:1324 | removeNamedItem fails with NOT_FOUND_ERR exactly when the name is absent; otherwise the attribute no longer reads and the others are unchanged |
| Attributes.CopyAttrsIdentity | src/main/java/com/nfbsoftware/xml/XmlDocument.java:2035-2045 | copying attribute by attribute reproduces an attribute list with unique names: every attribute, its value and its place |
| AttributeOps.AttrsOf | src/main/java/com/nfbsoftware/xml/XmlDocument.java:603 | getAttributes() is non-null exactly for an element current node |
| AttributeOps.WithAttrsSpec | src/main/java/com/nfbsoftware/xml/XmlDocument.java:1606-1625 | replacing an element's attributes keeps the document valid, the element's name and children, and every node apart from it |
| AttributeOps.SetThenGetAttribute | src/main/java/com/nfbsoftware/xml/XmlDocument.java:1606-1625 | after setAttribute, getAttribute reads the value back; other attributes read as before; nothing else in the document changes |
| AttributeOps.SetAttributeCount | src/main/java/com/nfbsoftware/xml/XmlDocument.java:1606-1625 | setAttribute adds one attribute exactly when the name was absent, and keeps the names unique |
| AttributeOps.RemoveThenGetAttribute | src/main/java/com/nfbsoftware/xml/XmlDocument.java:1319-1330 | removeAttribute succeeds exactly on an element with the attribute; afterwards that attribute reads "", the others read as before, and nothing else changes |
| AttributeOps.AttributeNameAtSpec | src/main/java/com/nfbsoftware/xml/XmlDocument.java:2185-2205 | getAttributeNameByIndex answers the names in index order for 0 .. count-1, and INVALID_INDEX for every other index |
| AttributeOps.AttributeListsSpec | src/main/java/com/nfbsoftware/xml/XmlDocument.java:622-679 | getAttributeNames and getAttributeValues list getAttributeCount entries, paired by position: the i-th value is getAttribute of the i-th name, which with unique names is the i-th attribute's value |
| AttributeOps.GetUniqueAt | src/main/java/com/nfbsoftware/xml/XmlDocument.java:654-679 | with unique names, looking up the name at a position finds the value at that position |
| AttributeOps.ChildAttributeMissingFails | src/main/java/com/nfbsoftware/xml/XmlDocument.java:796-828 | as written, an element found by the path but lacking the attribute gives GENERAL_ERROR, not "" |
| AttributeOps.ChildAttributeSpec | src/main/java/com/nfbsoftware/xml/XmlDocument.java:796-828 | the corrected getChildAttribute reads the attribute of the node found as getAttribute would: "" when absent, CHILD_NOT_FOUND when nothing is found, GENERAL_ERROR for a node without attributes or a failed lookup; it agrees with the code as written whenever the attribute is present |
| AttributeOps.RemoveChildAttributeSpec | src/main/java/com/nfbsoftware/xml/XmlDocument.java:1455-1473 | removeChildAttribute succeeds exactly when the lookup finds an element with the attribute; that attribute then reads "" through getChildAttribute, and the document is as removeAttribute on that node leaves it |
| AttributeOps.AttributeEditsKeep | src/main/java/com/nfbsoftware/xml/XmlDocument.java:1319-1330 | setAttribute and removeAttribute keep the document valid with the same nodes, whether or not they succeed |
| AttributeOps.RemoveChildAttributeKeeps | src/main/java/com/nfbsoftware/xml/XmlDocument.java:1455-1473 | removeChildAttribute keeps the document valid with the same nodes, whether or not it succeeds |
| Dom.Get | src/main/java/com/nfbsoftware/xml/XmlDocument.java:61-66 | the node looked up by identifier carries that identifier |
| Dom.FirstElement | src/main/java/com/nfbsoftware/xml/XmlDocument.java:1789 | getDocumentElement answers an element among the document node's children, and none exactly when there is no element child |
| Dom.AdoptSpec | src/main/java/com/nfbsoftware/xml/XmlDocument.java:314 | adopting a subtree of fresh identifiers keeps the document valid, makes the subtree findable, and changes no other node |
| Dom.CreateSpec | src/main/java/com/nfbsoftware/xml/XmlDocument.java:314-319 | createElement, createTextNode and createCDATASection make a fresh node attached nowhere, and nothing else changes |
| Dom.MoveSpec | src/main/java/com/nfbsoftware/xml/XmlDocument.java:349 | appendChild keeps the document valid and its identifiers; the moved subtree is intact and is the parent's last child; a node apart from both is untouched |
| Dom.DetachSpec | src/main/java/com/nfbsoftware/xml/XmlDocument.java:1347 | removeChild keeps the document valid and its identifiers; the subtree stays intact and has no parent |
| Dom.ParentOfSpec | src/main/java/com/nfbsoftware/xml/XmlDocument.java:1347 | getParentNode finds the node whose child the node is, and finds none exactly for a node attached nowhere |
| Dom.SwapSpec | src/main/java/com/nfbsoftware/xml/XmlDocument.java:1558 | replaceChild keeps the document valid and its identifiers: the new subtree takes o's place in p's child list, o's subtree is attached nowhere, and a node apart from p and n is untouched |
| Dom.SetNodeSpec | src/main/java/com/nfbsoftware/xml/XmlDocument.java:1651 | changing a node in place keeps the document valid; the node reads back as set, and nodes apart from it are untouched |
| Dom.FirstText | src/main/java/com/nfbsoftware/xml/XmlDocument.java:1094-1110 | the first text child is a text child, and none is answered exactly when no child is a text node |
| Dom.FirstCData | src/main/java/com/nfbsoftware/xml/XmlDocument.java:1150-1166 | the first CDATA child is a CDATA section, and none is answered exactly when no child is one |
| Placing.AppendCreated | src/main/java/com/nfbsoftware/xml/XmlDocument.java:314-320 | appending a just-made node fails with HIERARCHY_REQUEST_ERR exactly when the node does not take its kind; otherwise it becomes the last child, and only that node and its ancestors change |
| Placing.ReplaceKidAt | src/main/java/com/nfbsoftware/xml/XmlDocument.java:1558 | replaceChild(n, o) fails with HIERARCHY_REQUEST_ERR exactly when p does not take n, n is p or an ancestor of p, or n would be a second document element; a node from outside p takes o's place and o is left attached nowhere |
| Transplant.RenumberIds | src/main/java/com/nfbsoftware/xml/XmlDocument.java:2014-2075 | a copy's new identifiers are k, k+1, ... in preorder, one per node |
| Transplant.EraseRenumber | src/main/java/com/nfbsoftware/xml/XmlDocument.java:2014-2075 | renumbering changes identifiers and nothing else |
| Transplant.RenumberFresh | src/main/java/com/nfbsoftware/xml/XmlDocument.java:2014-2075 | a renumbered tree has no duplicate identifier, and all of them lie in [k, k + size) |
| Transplant.CloneChildrenSpec | src/main/java/com/nfbsoftware/xml/XmlDocument.java:2014-2075 | cloneChildren fails with CLONE_FAILED exactly on a tree holding a document node or another unsupported kind; otherwise it answers null for a null text and else the source's canonical copy, numbered from k, with the next free identifier |
| Transplant.CanonicalOfDomShaped | src/main/java/com/nfbsoftware/xml/XmlDocument.java:2014-2075 | a tree without null texts below an element is its own canonical form |
| Transplant.CopyIsStructurallyEqual | src/main/java/com/nfbsoftware/xml/XmlDocument.java:2014-2075 | the copy of a clonable tree equals the source up to identifiers: element name, every attribute, every child in order, every payload; its identifiers are fresh and distinct |
| Transfer.ExamineSpec | src/main/java/com/nfbsoftware/xml/XmlDocument.java:1990-2000 | examineChild keeps the document valid and its nodes; a node of this document is passed on unchanged; a foreign one fails exactly when it is null or cannot be cloned, gives null exactly for a null text, and is otherwise its copy, new and attached nowhere |
| Transfer.AttachSpec | src/main/java/com/nfbsoftware/xml/XmlDocument.java:349 | attaching a node of the same document moves that very node to be the last child, subtree intact; a node of another document is copied and the copy appended, equal to the source up to identifiers |
| Transfer.CopyOutSpec | src/main/java/com/nfbsoftware/xml/XmlDocument.java:291-300 | create(node) of a clonable element answers a new valid document whose only child is a copy equal to the source up to identifiers; a comment gives a document without element; a text or CDATA section is refused by the document node |
| Transfer.CopyOutAppends | src/main/java/com/nfbsoftware/xml/XmlDocument.java:297 | the copy is appended to the empty document node when that node accepts it |
| Transfer.CopyDocumentSpec | src/main/java/com/nfbsoftware/xml/XmlDocument.java:291-300 | the copy's document is valid and holds the copy as the document node's only child |
| Transfer.CopyOutRefused | src/main/java/com/nfbsoftware/xml/XmlDocument.java:297 | the document node refuses a text or CDATA copy |
| Transfer.CloneInPlaceSpec | src/main/java/com/nfbsoftware/xml/XmlDocument.java:436 | cloneNode(deep) makes a new node attached nowhere, equal to the source up to identifiers (without children when not deep); every node of the document is kept and unchanged |
| Creation.Chain | src/main/java/com/nfbsoftware/xml/XmlDocument.java:2106-2121 | the new elements' chain starts with an element named after the first segment, numbered k |
| Creation.ChainResolve | src/main/java/com/nfbsoftware/xml/XmlDocument.java:2106-2121 | a chain resolves its remaining segments to its innermost element |
| Creation.ChainFresh | src/main/java/com/nfbsoftware/xml/XmlDocument.java:2106-2121 | a chain's identifiers are the next ones, each used once |
| Creation.CreateAtWalkStop | src/main/java/com/nfbsoftware/xml/XmlDocument.java:2099-2123 | where the walk stops short of the path, the call grafts the chain there or fails as appendChild does |
| Creation.CreateAtSpec | src/main/java/com/nfbsoftware/xml/XmlDocument.java:2106-2123 | the creating half grafts the chain when the node takes its first element, answering the innermost new element, and otherwise fails with HIERARCHY_REQUEST_ERR with one element made and left unattached |
| Creation.CreateExisting | src/main/java/com/nfbsoftware/xml/XmlDocument.java:2086-2129 | when the whole path resolves, the document is unchanged and the answer is the node found |
| Creation.CreateShape | src/main/java/com/nfbsoftware/xml/XmlDocument.java:2086-2129 | otherwise the call is the graft of the chain for the remaining segments at the node where the walk stopped |
| Creation.CreateAppendsValid | src/main/java/com/nfbsoftware/xml/XmlDocument.java:2086-2129 | when that node accepts an element, the document stays valid |
| Creation.GraftChainBag | src/main/java/com/nfbsoftware/xml/XmlDocument.java:2106-2121 | the graft adds exactly the next identifiers, one per remaining segment |
| Creation.GraftChainKeeps | src/main/java/com/nfbsoftware/xml/XmlDocument.java:2106-2121 | the graft keeps the document valid and every node already in it |
| Creation.CreateAppendsPlaces | src/main/java/com/nfbsoftware/xml/XmlDocument.java:2106-2123 | the new chain hangs under the node the walk reached as its last child, and the answer is the innermost new element |
| Creation.GraftResolves | src/main/java/com/nfbsoftware/xml/XmlDocument.java:2086-2129 | after the graft, the whole path resolves from the current node to the innermost new element |
| Creation.CreateAgain | src/main/java/com/nfbsoftware/xml/XmlDocument.java:2086-2129 | after a call that created nodes, a second identical call finds the path and changes nothing |
| Creation.CreateIdempotent | src/main/java/com/nfbsoftware/xml/XmlDocument.java:2081-2135 | a second identical call creates nothing: the document is as the first call left it, and the answer is the same |
| Creation.ChainStart | src/main/java/com/nfbsoftware/xml/XmlDocument.java:2106-2110 | the first created element appended where the walk stopped is a chain of one |
| Creation.ChainStep | src/main/java/com/nfbsoftware/xml/XmlDocument.java:2112-2121 | each further createElement appended under the innermost element grows the chain by one segment |
| Creation.AppendToEmpty | src/main/java/com/nfbsoftware/xml/XmlDocument.java:2118 | appendChild of a new element under an element without children makes it the only child |
| Handlers.CreateFirstStep | src/main/java/com/nfbsoftware/xml/XmlDocument.java:314-315 | the new element becomes the current node's last child |
| Handlers.CreateSecondStep | src/main/java/com/nfbsoftware/xml/XmlDocument.java:317-321 | a text child goes into the new element for a non-empty value, and the current node sees the element with it |
| Handlers.CreateChildSpec | src/main/java/com/nfbsoftware/xml/XmlDocument.java:309-328 | createChild(name, value), and createChild(name) with "" (445-448), fails exactly when the current node is null or takes no element, always with GENERAL_ERROR; otherwise it answers a handle on a new last child with that name, whose text value reads back as the value; nodes apart are unchanged |
| Handlers.CreateChildRefused | src/main/java/com/nfbsoftware/xml/XmlDocument.java:458-474 | a current node that takes no element child: appendChild's exception, wrapped twice |
| Handlers.CreateByNameKeeps | src/main/java/com/nfbsoftware/xml/XmlDocument.java:2081-2135 | the auto-creation keeps the document valid and every node in it, whether or not it succeeds |
| Handlers.CreateGrownKeeps | src/main/java/com/nfbsoftware/xml/XmlDocument.java:2081-2135 | a successful auto-creation only adds identifiers |
| Handlers.CreateRefusedKeeps | src/main/java/com/nfbsoftware/xml/XmlDocument.java:2106-2108 | a refused auto-creation leaves the one element it made attached nowhere |
| Handlers.CreateChildrenSpec | src/main/java/com/nfbsoftware/xml/XmlDocument.java:483-525 | createChildren(path) answers the node the path leads to, the document unchanged, when there is one, and otherwise the deepest new element; it fails only when an element cannot be appended or from a null node with a non-empty path, with GENERAL_ERROR |
| Handlers.CreateChildrenIdempotent | src/main/java/com/nfbsoftware/xml/XmlDocument.java:483-499 | a second identical createChildren answers what the first did and changes nothing |
| Handlers.AttachForeign | src/main/java/com/nfbsoftware/xml/XmlDocument.java:349 | a copiable foreign node is attached exactly when the receiving node takes its copy |
| Handlers.AddChildSpec | src/main/java/com/nfbsoftware/xml/XmlDocument.java:337-355 | addChild from a null node fails with GENERAL_ERROR caused by NULL_ROOT_ELEMENT, the document untouched; a node of this document is moved; a node of another document is copied and the copy appended, GENERAL_ERROR caused by CLONE_FAILED when it cannot be |
| Handlers.AddChildForeign | src/main/java/com/nfbsoftware/xml/XmlDocument.java:337-355 | addChild of a foreign node fails with GENERAL_ERROR caused by CLONE_FAILED for an uncopiable node, and otherwise appends its copy exactly when the current node takes it |
| Handlers.AttachErrors | src/main/java/com/nfbsoftware/xml/XmlDocument.java:349 | attaching fails only with a NullPointerException, HIERARCHY_REQUEST_ERR, or CLONE_FAILED |
| Handlers.AppendChildByNameSpec | src/main/java/com/nfbsoftware/xml/XmlDocument.java:390-420 | appendChildByName: a null node raises NULL_ROOT_ELEMENT and a path leading nowhere PARENT_NOT_FOUND, the document untouched; otherwise the node found receives the child as addChild would, CLONE_FAILED passed on and DOM exceptions wrapped |
| Handlers.DocElementIn | src/main/java/com/nfbsoftware/xml/XmlDocument.java:1784-1790 | the document element of a valid document belongs to it: the first element child of the document node |
| Handlers.AddToChildSpec | src/main/java/com/nfbsoftware/xml/XmlDocument.java:365-382 | addToChild is appendChildByName with the donor's document element; the facade's exceptions come back as GENERAL_ERROR caused by them |
| Handlers.CloneSpec | src/main/java/com/nfbsoftware/xml/XmlDocument.java:431-443 | for a current node other than the document node, clone answers a handle on a new node of the same document, attached nowhere, equal to the current node up to identifiers (without children when not deep); every node is kept unchanged; a null node gives GENERAL_ERROR caused by a NullPointerException |
| Handlers.SetValueThenGetValue | src/main/java/com/nfbsoftware/xml/XmlDocument.java:1193-1208 | after a successful setValue(v), getValue reads v (null as ""); from a null current node neither succeeds |
| Queries.SelectNodes | src/main/java/com/nfbsoftware/xml/XmlDocument.java:1069-1086 | with a current node and a working evaluator, the matches are the evaluator's answer unchanged |
| Queries.SelectChildSpec | src/main/java/com/nfbsoftware/xml/XmlDocument.java:711-751 | selectChild answers the match exactly when there is one, null exactly when there is none, GENERAL_ERROR for several; a null node is NULL_ROOT_ELEMENT; an evaluator failure is GENERAL_ERROR |
| Queries.DetachTops | src/main/java/com/nfbsoftware/xml/XmlDocument.java:1411 | one removeChild of a node with a parent makes it a detached root; no other root appears or goes |
| Queries.DetachContent | src/main/java/com/nfbsoftware/xml/XmlDocument.java:1411 | one removeChild changes no node's name, attributes or payload, only child lists |
| Queries.DetachAttached | src/main/java/com/nfbsoftware/xml/XmlDocument.java:1411 | one removeChild takes exactly the node's subtree out of the document tree |
| Queries.DetachAllSpec | src/main/java/com/nfbsoftware/xml/XmlDocument.java:1405-1414 | detaching the matches in turn keeps the document valid and its nodes; it succeeds exactly when every match has a parent; then the matches and nothing else become detached roots, every node keeps its content, and no match stays in the document tree |
| Queries.DetachAllKeeps | src/main/java/com/nfbsoftware/xml/XmlDocument.java:1405-1414 | the loop keeps the document valid, with the same nodes |
| Queries.DetachAllOutcome | src/main/java/com/nfbsoftware/xml/XmlDocument.java:1405-1414 | the first match already without a parent stops the loop with a NullPointerException |
| Queries.DetachAllTops | src/main/java/com/nfbsoftware/xml/XmlDocument.java:1405-1414 | on success, the detached roots are the former ones plus the matches |
| Queries.DetachAllContent | src/main/java/com/nfbsoftware/xml/XmlDocument.java:1405-1414 | every node keeps the content a clone of it would copy |
| Queries.DetachAllAttached | src/main/java/com/nfbsoftware/xml/XmlDocument.java:1405-1414 | on success, no match is attached to the document tree, and nothing joined it |
| Queries.RemoveMatchesSpec | src/main/java/com/nfbsoftware/xml/XmlDocument.java:1390-1422 | removeChildrenWithXpath fails exactly for a null node, a failing evaluator or a match without parent, each as GENERAL_ERROR; with no match it changes nothing and answers null; otherwise it answers the matches in order, each now detached |
| Queries.RemoveMatchSpec | src/main/java/com/nfbsoftware/xml/XmlDocument.java:1428-1449 | removeChildWithXpath with no match fails with GENERAL_ERROR and changes nothing; otherwise it answers the first match when removeChildrenWithXpath succeeds |
| Queries.RemovedNotSelectedAgain | src/test/java/com/nfbsoftware/xml/XmlDocumentTest.java:196-205 | after removeChildrenWithXpath of a query on the document tree's content succeeds, the same query finds nothing |
| Queries.DetachAllTurn | src/main/java/com/nfbsoftware/xml/XmlDocument.java:1409-1411 | one turn of the loop: the first match removed from its parent, or the NullPointerException of a match without one |
| Rebuild.Texts | src/main/java/com/nfbsoftware/xml/XmlDocument.java:1497-1501 | the buffered children are text children, and every text child is buffered |
| Rebuild.StripBasics | src/main/java/com/nfbsoftware/xml/XmlDocument.java:1491-1504 | the removal loop leaves the element with no child, and the document keeps its nodes |
| Rebuild.StripTurn | src/main/java/com/nfbsoftware/xml/XmlDocument.java:1493-1503 | one turn removes the first child and carries on from what is left |
| Rebuild.StripBuffer | src/main/java/com/nfbsoftware/xml/XmlDocument.java:1491-1504 | the buffer gains the element's text children, in order |
| Rebuild.StripApart | src/main/java/com/nfbsoftware/xml/XmlDocument.java:1491-1504 | removing every child changes no node apart from the element |
| Rebuild.StripKids | src/main/java/com/nfbsoftware/xml/XmlDocument.java:1491-1504 | each former child is left a detached root, intact |
| Rebuild.StripTops | src/main/java/com/nfbsoftware/xml/XmlDocument.java:1491-1504 | the detached roots afterwards are the former ones and the element's former children |
| Rebuild.StripTexts | src/main/java/com/nfbsoftware/xml/XmlDocument.java:1491-1504 | after the removal loop the buffer holds the element's text children: detached, intact and distinct |
| Rebuild.RestoreTurn | src/main/java/com/nfbsoftware/xml/XmlDocument.java:1507-1510 | one turn of the second loop: a failed append stops it, a successful one leaves the rest of the texts to do |
| Rebuild.RestoreSpec | src/main/java/com/nfbsoftware/xml/XmlDocument.java:1505-1511 | appending the buffered texts to an element makes them its last children, in order, and the document keeps its nodes |
| Rebuild.RestoreKeeps | src/main/java/com/nfbsoftware/xml/XmlDocument.java:1505-1511 | appending the buffered texts changes no node apart from the element and the texts |
| Rebuild.RestoreValid | src/main/java/com/nfbsoftware/xml/XmlDocument.java:1505-1511 | appending texts keeps the document valid and its nodes, whether or not each append succeeds |
| Rebuild.Evens | src/main/java/com/nfbsoftware/xml/XmlDocument.java:1519-1530 | the even positions are half the entries, rounded up |
| Rebuild.Odds | src/main/java/com/nfbsoftware/xml/XmlDocument.java:1519-1530 | the odd positions are half the entries, rounded down |
| Rebuild.EvensAt | src/main/java/com/nfbsoftware/xml/XmlDocument.java:1519-1530 | entry i of the even positions is entry 2i |
| Rebuild.OddsAt | src/main/java/com/nfbsoftware/xml/XmlDocument.java:1519-1530 | entry i of the odd positions is entry 2i + 1 |
| Rebuild.EvensOddsSplit | src/main/java/com/nfbsoftware/xml/XmlDocument.java:1519-1530 | the even and the odd positions share out the entries between them |
| Rebuild.MovesStep | src/main/java/com/nfbsoftware/xml/XmlDocument.java:1520-1529 | one turn over the live list moves the cnt-th child to the element and carries on from cnt + 1 |
| Rebuild.MovesSpec | src/main/java/com/nfbsoftware/xml/XmlDocument.java:1518-1530 | as each move shortens the live list, the children at even positions from cnt on are moved, in order, to the end of the element, and those at odd positions stay with the parent |
| Rebuild.MovesKeeps | src/main/java/com/nfbsoftware/xml/XmlDocument.java:1518-1530 | the same-document loop leaves every node apart from the element and the parent as it was |
| Rebuild.MovesDone | src/main/java/com/nfbsoftware/xml/XmlDocument.java:1520 | once the index passes the end of the live list the loop leaves the state as it is |
| Rebuild.MovesTurn | src/main/java/com/nfbsoftware/xml/XmlDocument.java:1522-1528 | one turn: the cnt-th child appended to the element, or the exception that stops the loop |
| Rebuild.MovesValid | src/main/java/com/nfbsoftware/xml/XmlDocument.java:1518-1530 | the same-document loop keeps any document valid with the same nodes |
| Rebuild.CopyFresh | src/main/java/com/nfbsoftware/xml/XmlDocument.java:1524 | the copy of a clonable child that is not a null text is fresh, detached, and acceptable to an element |
| Rebuild.CopyStep | src/main/java/com/nfbsoftware/xml/XmlDocument.java:1522-1529 | copying one such child makes its copy the element's last child |
| Rebuild.CopiesSpec | src/main/java/com/nfbsoftware/xml/XmlDocument.java:1518-1530 | copying a foreign parent's children fails with CLONE_FAILED exactly when some child cannot be cloned; otherwise the element keeps its children and gains, after them, copies equal to the parent's children up to identifiers, null texts dropped |
| Rebuild.CopiesOutcome | src/main/java/com/nfbsoftware/xml/XmlDocument.java:1518-1530 | the copying loop fails, with CLONE_FAILED, exactly when some child cannot be cloned |
| Rebuild.CopiesContents | src/main/java/com/nfbsoftware/xml/XmlDocument.java:1518-1530 | on success the element keeps its children and gains the copies, equal to the children but for identifiers, null texts dropped |
| Rebuild.CopiesValid | src/main/java/com/nfbsoftware/xml/XmlDocument.java:1518-1530 | the copying loop keeps any document valid and every node it had |
| Rebuild.PhaseOne | src/main/java/com/nfbsoftware/xml/XmlDocument.java:1484-1511 | after the first two loops the element's children are exactly its former text children, in order |
| Rebuild.PhaseOneApart | src/main/java/com/nfbsoftware/xml/XmlDocument.java:1484-1511 | the first two loops leave every node apart from the element as it was |
| Rebuild.ReplaceAllNullRoot | src/main/java/com/nfbsoftware/xml/XmlDocument.java:1479-1540 | a null current node gives GENERAL_ERROR caused by a NullPointerException, and the document is untouched |
| Rebuild.ReplaceAllNoParent | src/main/java/com/nfbsoftware/xml/XmlDocument.java:1512-1517 | a parent handle without a node leaves the element with only its text children, in order, and succeeds |
| Rebuild.ReplaceAllSame | src/main/java/com/nfbsoftware/xml/XmlDocument.java:1479-1540 | with a parent of the same document apart from the element, the element ends with its own text children followed by the parent's children at even positions, and the parent keeps those at odd positions |
| Rebuild.RefillSame | src/main/java/com/nfbsoftware/xml/XmlDocument.java:1518-1530 | the same-document third loop succeeds; the element gains the parent's children at even positions, and the parent keeps the rest |
| Rebuild.ReplaceAllOther | src/main/java/com/nfbsoftware/xml/XmlDocument.java:1479-1540 | with a parent of another document, the call succeeds exactly when every child of the parent can be cloned, and fails with CLONE_FAILED otherwise; on success the element holds its own text children followed by copies of the parent's children |
| Rebuild.RefillOther | src/main/java/com/nfbsoftware/xml/XmlDocument.java:1518-1538 | the other-document third loop is the copying loop, its CLONE_FAILED rethrown unchanged |
| Rebuild.ReplaceAllKeeps | src/main/java/com/nfbsoftware/xml/XmlDocument.java:1479-1540 | replaceAllChildren, whatever it is given, leaves a valid document that still holds every node it had |
| XmlDocuments.Document.constructor | src/main/java/com/nfbsoftware/xml/XmlDocument.java:61 | the shared document object holds the given tree |
| XmlDocuments.XmlDocument.constructor | src/main/java/com/nfbsoftware/xml/XmlDocument.java:229-233 | the handle holds exactly the document and node it is given |
| XmlDocuments.XmlDocument.Create | src/main/java/com/nfbsoftware/xml/XmlDocument.java:281-284 | create(node, mDocument) answers a new handle on that node of the same document |
| XmlDocuments.XmlDocument.ReplaceFromReader | src/main/java/com/nfbsoftware/xml/XmlDocument.java:1866-1889 | a parsed document becomes the handle's new document with the document node current; a failure sets both fields to null |
| XmlDocuments.XmlDocument.GetRootElement | src/main/java/com/nfbsoftware/xml/XmlDocument.java:1784-1790 | answers a new handle, in the same document, on the document element |
| XmlDocuments.XmlDocument.CreateChild | src/main/java/com/nfbsoftware/xml/XmlDocument.java:458-474 | the shared document becomes what createChild leaves, and the answer is a handle on the new element in this document |
| XmlDocuments.XmlDocument.CreateChildByName | src/main/java/com/nfbsoftware/xml/XmlDocument.java:509-525 | the shared document becomes what prgCreateChildByName leaves, and the answer is a handle on the node it found or made |
| XmlDocuments.XmlDocument.CreateChildren | src/main/java/com/nfbsoftware/xml/XmlDocument.java:483-499 | as createChildByName, with the facade's exceptions re-wrapped |
| XmlDocuments.XmlDocument.AddChild | src/main/java/com/nfbsoftware/xml/XmlDocument.java:337-355 | the shared document becomes what addChild leaves; a child handle on another document leaves that document unchanged |
| XmlDocuments.XmlDocument.AppendChildByName | src/main/java/com/nfbsoftware/xml/XmlDocument.java:390-420 | the shared document becomes what appendChildByName leaves; another document is unchanged |
| XmlDocuments.XmlDocument.AddToChild | src/main/java/com/nfbsoftware/xml/XmlDocument.java:365-382 | the shared document becomes what addToChild leaves; another document is unchanged |
| XmlDocuments.XmlDocument.Clone | src/main/java/com/nfbsoftware/xml/XmlDocument.java:431-443 | the shared document gains the clone, and the answer is a new handle on it in this document |
| XmlDocuments.XmlDocument.RemoveChildAt | src/main/java/com/nfbsoftware/xml/XmlDocument.java:1336-1359 | the shared document becomes what removeChild(index) leaves, and the answer is a handle on the removed child |
| XmlDocuments.XmlDocument.RemoveChildNamed | src/main/java/com/nfbsoftware/xml/XmlDocument.java:1365-1384 | the shared document becomes what removeChild(path) leaves, and the answer is a handle on the removed node |
| XmlDocuments.XmlDocument.ReplaceChildAt | src/main/java/com/nfbsoftware/xml/XmlDocument.java:1546-1569 | the shared document becomes what replaceChild(index, newChild) leaves, with a handle on the replaced child; another document is unchanged |
| XmlDocuments.XmlDocument.ReplaceChildNamed | src/main/java/com/nfbsoftware/xml/XmlDocument.java:1575-1600 | the shared document becomes what replaceChild(path, newChild) leaves, with a handle on the replaced node; another document is unchanged |
| XmlDocuments.XmlDocument.SetValue | src/main/java/com/nfbsoftware/xml/XmlDocument.java:1702-1705 | the shared document becomes what setTextValue leaves, and on success getValue reads the value (null as "") |
| XmlDocuments.XmlDocument.SetCDataSection | src/main/java/com/nfbsoftware/xml/XmlDocument.java:1691-1694 | the shared document becomes what setCDATASection leaves |
| XmlDocuments.XmlDocument.SetAttribute | src/main/java/com/nfbsoftware/xml/XmlDocument.java:1606-1625 | the shared document becomes what setAttribute leaves, and on success getAttribute reads the value |
| XmlDocuments.XmlDocument.RemoveAttribute | src/main/java/com/nfbsoftware/xml/XmlDocument.java:1319-1330 | the shared document becomes what removeAttribute leaves |
| XmlDocuments.XmlDocument.RemoveChildAttribute | src/main/java/com/nfbsoftware/xml/XmlDocument.java:1455-1473 | the shared document becomes what removeChildAttribute leaves |
| XmlDocuments.XmlDocument.PrgCreateChildByName | src/main/java/com/nfbsoftware/xml/XmlDocument.java:2081-2135 | the nested loops leave the document, and answer the node, as the auto-creation function specifies |
| XmlDocuments.XmlDocument.CreateBelow | src/main/java/com/nfbsoftware/xml/XmlDocument.java:2086-2129 | from a current node, the lookup loop then the creating loop give the auto-creation's state and answer |
| XmlDocuments.XmlDocument.AppendChain | src/main/java/com/nfbsoftware/xml/XmlDocument.java:2106-2123 | createElement and appendChild for the first missing segment, then the inner loop, give the creating half's state and answer |
| XmlDocuments.XmlDocument.ExtendChain | src/main/java/com/nfbsoftware/xml/XmlDocument.java:2112-2121 | the inner while grafts one element per remaining segment, each under the last, and answers the innermost |
| XmlDocuments.XmlDocument.ExtendOnce | src/main/java/com/nfbsoftware/xml/XmlDocument.java:2114-2120 | one pass lengthens the grafted chain by segment k and answers the element made |
| XmlDocuments.XmlDocument.ReplaceAllChildren | src/main/java/com/nfbsoftware/xml/XmlDocument.java:1479-1540 | the three loops leave the shared document, and answer, as replaceAllChildren specifies; a parent in another document is left unchanged |
| XmlDocuments.XmlDocument.StripChildren | src/main/java/com/nfbsoftware/xml/XmlDocument.java:1491-1504 | the removal loop leaves the state the removal function specifies and answers the buffered texts |
| XmlDocuments.XmlDocument.RestoreTexts | src/main/java/com/nfbsoftware/xml/XmlDocument.java:1505-1511 | the second loop appends the buffered texts as the restoring function specifies |
| XmlDocuments.XmlDocument.MoveChildren | src/main/java/com/nfbsoftware/xml/XmlDocument.java:1518-1530 | the index loop over the live list gives the moving function's state and answer |
| XmlDocuments.XmlDocument.CopyChildren | src/main/java/com/nfbsoftware/xml/XmlDocument.java:1518-1530 | the index loop over a foreign parent's children gives the copying function's state and answer |
| XmlDocuments.XmlDocument.RemoveChildrenWithXpath | src/main/java/com/nfbsoftware/xml/XmlDocument.java:1390-1422 | the shared document becomes what removeChildrenWithXpath leaves; the answer is null or one new handle per match, in order |
| XmlDocuments.XmlDocument.DetachMatches | src/main/java/com/nfbsoftware/xml/XmlDocument.java:1405-1414 | the loop detaches the matches as the detaching function specifies |
| XmlDocuments.XmlDocument.HandlesOn | src/main/java/com/nfbsoftware/xml/XmlDocument.java:1413 | one new handle per identifier, in order, each on this document |
| XmlDocuments.XmlDocument.RemoveChildWithXpath | src/main/java/com/nfbsoftware/xml/XmlDocument.java:1428-1449 | the shared document becomes what removeChildWithXpath leaves, and the answer is a handle on the first match |
| XmlDocuments.FirstMiss | src/main/java/com/nfbsoftware/xml/XmlDocument.java:2099-2126 | the lookup loop stops at the node, and after the number of segments, that the walk specifies |
| XmlDocuments.CreateAtStop | src/main/java/com/nfbsoftware/xml/XmlDocument.java:2099-2123 | where the lookup loop stops is where the auto-creation grafts its chain |
| XmlDocuments.FirstLink | src/main/java/com/nfbsoftware/xml/XmlDocument.java:2106-2110 | the first appendChild succeeds exactly when the node takes an element, giving a chain of one; otherwise it fails with HIERARCHY_REQUEST_ERR and the made element stays unattached |
| XmlDocuments.NextLink | src/main/java/com/nfbsoftware/xml/XmlDocument.java:2114-2120 | each later appendChild succeeds and grows the chain by segment k |

## Left out

- XslDocument is not part of this model. It is a thin layer over the JAXP transformer factories.
- Parsing, serialisation and validation are left out: `DocumentBuilder.parse`, `write`,
  `writeToStream`, `toString`, `isValid`, and the file, stream and reader constructors and
  `load` overloads. They are I/O into libraries.
  - `replaceFromReader` takes the parser's answer as an `Option<State>` parameter.
- The XPath 1.0 evaluator (`CachedXPathAPI`) is a parameter. Each query operation takes the
  evaluator's answer as an ordered list of node identifiers, or its failure. XPath itself is not
  modelled.
  - `Queries.RemovedNotSelectedAgain` is stated for queries that select nodes of the document tree
    by their own content.
- `synchronized (mDocument)` and the locking of the static `CODE_MAP` are left out: the model is
  sequential. The registry is an explicit `CodeRegistry` object passed to the constructors, not
  a static field.
- `getMessage` (MessageFormat), `toString` and stack-trace rendering of the exceptions are left
  out. They are a foreign formatter and printing.
- DOM library details the source does not show are left out:
  - `createElement` never rejects a name in the model. An invalid name would surface only as the
    GENERAL_ERROR wrap.
  - Attributes keep insertion order, a new attribute going last. The DOM leaves the index order
    of `NamedNodeMap` unspecified, so only the pairing of names and values by position is stated.
- Processing instructions are the `Instruction` node kind. `cloneChildren` refuses them with
  CLONE_FAILED, as it refuses the document node. Attribute nodes as children, entity references
  and doctype nodes are not modelled: `DomTree.Node` has no kind for them.
- Null `String` and `IXmlElement` arguments are not modelled: paths, names, values and handles
  are plain values. This affects `Paths.Split`, `AttributeOps.ChildAttributeAsWritten`,
  `Handlers.AddChild`, `Handlers.AppendChildByName`, `Handlers.AddToChild`,
  `Indexed.ReplaceNamed`, `Indexed.ReplaceAt` and `Rebuild.ReplaceAll`. In the source:
  - a null path makes `StringUtils.split` answer null, and the NullPointerException that follows
    surfaces as GENERAL_ERROR;
  - the `attr == null` branch of `getChildAttribute` (XmlDocument.java:810-812) answers `""` only
    for a null attribute name, which the model cannot pass;
  - a null `IXmlElement` given to `addChild`, `appendChildByName`, `addToChild`, `replaceChild`
    or `replaceAllChildren` fails at `child.getRootNode()`, and that NullPointerException is
    wrapped as GENERAL_ERROR.
- NfbCheckedException.java is not part of this model. `XmlDocumentCheckedException` assumes its
  five-argument constructor stores the code, debug information, arguments, root cause and
  severity exactly as given.
- `getName` and `getNameSpace` are left out. Each returns `mRootNode.getNodeName()` without a try
  block.
- XmlDocuments.XmlDocument.Clone, Handlers.Clone and Handlers.CloneSpec: require the current
  node not to be the document node. `Document.cloneNode` makes a new Document, and the Java
  handle pairs that new node with the old `mDocument`. Edits through such a handle raise
  WRONG_DOCUMENT_ERR in the DOM. The model has one node arena per document, so cloning a
  document node is not modelled.
- Severity.AsInt: requires a non-empty string. The source throws StringIndexOutOfBoundsException
  at `charAt(0)` on "" and NullPointerException on null (Severity.java:49). The model does not
  represent those exceptions.
- XmlDocuments.XmlDocument.MoveChildren: stops after at most as many turns as the parent had
  children at the start. The Java loop has no such bound. Every turn moves the child at the
  index away, so the bound is never what ends it on a parent apart from the receiver.
- XmlDocuments.XmlDocument.RemoveChildrenWithXpath: makes the handles after detaching every
  match, where the Java makes each handle inside the loop. Making a handle changes no document,
  so the answer and the state are the same.
- The methods of `XmlDocuments.XmlDocument` require the handle to be loaded: `mDocument` is
  not null, its tree is valid, and the current node belongs to it.
  - A null `mDocument` would throw a NullPointerException on the first dereference; the model
    does not represent that.
  - A null current node is modelled, with the exception each operation raises.
- Rebuild.ReplaceAllSame: stated only for a parent node apart from the receiving element,
  neither inside it nor above it. For the other parents only `Rebuild.ReplaceAllKeeps` is
  stated: the document stays valid and keeps its nodes. What the code does in those cases:
  - When the parent is the receiver itself, the call succeeds. The third loop appends the
    receiver's own restored text children to it one index at a time over the live list, so they
    are reordered.
  - When the parent lies inside the receiver, the call also succeeds. The first loop has already
    detached the parent's subtree (or the parent is a restored text without children), so the
    parent is no longer an ancestor or descendant of the receiver. Its children at even
    positions move to the receiver.
  - When the parent lies above the receiver, the third loop appends the parent's children at
    even positions in turn. If it reaches the child that holds the receiver, that append fails
    with HIERARCHY_REQUEST_ERR, which the catch at lines 1536-1539 wraps as GENERAL_ERROR.
- A document node takes at most one element child, and no text or CDATA child, as DOM Level 2
  Core requires. Other constraints that the DOM places on document nodes, such as on doctype
  nodes, are not modelled.

## Findings

| source | as written | input that shows it | evidently intended | confidence | as-written member | corrected member |
|---|---|---|---|---|---|---|
| src/main/java/com/nfbsoftware/xml/XmlDocument.java:810 | `getChildAttribute` tests `attr` (the name parameter) for null instead of `attrNode` (the lookup's answer), so a missing attribute reaches `attrNode.getNodeValue()` and the NullPointerException surfaces as GENERAL_ERROR | a document `<r><a/></r>` with the current node at `r`, path `"a"`, attribute `"id"` | an attribute missing on the found element reads as `""`, as `getAttribute` does for the current node | not executed | AttributeOps.ChildAttributeMissingFails | AttributeOps.ChildAttributeSpec |
