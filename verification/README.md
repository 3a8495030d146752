# Verified model of leap-env's DOM, client and cryptographic helpers

A Dafny model of the parts of leap-env where state changes in place and where an error
would not show in any single function: the hand-written DOM, the length-prefixed TCP
client, the SHA-256 implementation and the seeded byte generator.  `dafny verify
dfyconfig.toml` checks all of it.

## What is modelled

**The DOM** is modelled twice.  `DomShared` keeps the source's own form: a class whose
methods update node records (`parentNode`, `childNodes`, `ownerDocument`, `ownedNodes`,
`_dodTree`) and the maps `documentById`, `taskToDocs` and `taskPrimaryDocument`.  Every
method is proved to have exactly the effect of a function on `DomState`, the same state
as one value (`DomModel`, `DomRelease`).  The properties are proved about those
functions: `DomForest` (trees as forests), `DomInsertion` (positions, splices, refusals),
`DomRelease` (documents and task scopes), `DomLayout` (the layout cache), `DomRuns` (any
sequence of operations) and `DomHistory`.  A *history* is the run of primitive operations
that a composite one amounts to; `setInnerHTML`, `setOuterHTML`, `cloneNode`, the element
insertions and the `cssText` setter all return theirs, so the invariants, the freshness
of document ids and the coherence of cached layouts carry over to them.

On top of it: `ElementSplice` and `DomElement` (`after`, `before`, `append`, `prepend`,
`replaceWith`), `StyleNames` and `StyleText` (inline style), `LayoutCache` (layout on the
records), `Attributes` and `ElementAttributes` (the two attribute stores), `DomTraversal`,
`ChainMatching`, `ChainLimits`, `SelectorText`, `SelectorGroups`, `SelectorMatching`,
`QueryText` and `DomQuery` (selectors), `EventOrder` and `EventDispatch` (events),
`Entities`, `Markup`, `MarkupRoundTrip`, `DomMarkup`, `DomCopies`, `MarkupDom` and
`OuterMarkup` (serialising, parsing, cloning).

**The client** is a class (`StandaloneClient`) proved against transitions on a value
(`LpjClient`, `LpjFrames`); **SHA-256** is proved against a recursive transcription of
FIPS 180-4 (`Sha256Spec`, `Sha256`); the **byte generator** against one stream per seed
(`SeededStream`, `CryptoRandom`).

A combinator list is *safe* when, read from right to left, only descendant steps follow a
descendant step and no `+` follows a `~` before the next child or descendant step.
Markup is *shaped* when its tags are lower case, its attribute names start with a letter,
no value holds a `>`, void elements are childless and no comment holds the end of one; it
is *faithful* when no text holds `&quot;` or a numeric reference and no value an `&` or a
quotation mark.

## Findings

Each row is something the code does not do, the exact condition under which it does, and
a state or input on which it fails.

| expected | holds exactly when | fails on |
|---|---|---|
| `insertBefore(c, b)` puts `c` directly in front of `b` | `c` was not an earlier sibling of `b` (`DomInsertion.InsertBeforePosition`) | `DomFindings.EarlierSiblingLandsBehind` |
| a throwing `appendChild` changes nothing | not both: the child is a fragment around the parent, and its first branch is not the one that holds the parent (`DomInsertion.AppendFailure`) | `DomFindings.FailingAppendMoves` |
| releasing documents leaves a forest | no fragment of theirs still holds children (`DomRelease.ReleaseForestIff`) | `DomFindings.LoadedFragmentBreaksForest` |
| a released document's cached layout is the one of its emptied tree | nothing was cached or the layouts are equal (`DomLayout.ReleasedCoherentIff`) | `DomFindings.LayoutOutlivesRelease` |
| the selector walk finds every match of a chain | the combinator list is safe (`ChainMatching.GreedyIsComplete`) | `ChainLimits.UnsafeChainsMissMatches`, `ChainLimits.ChildThenDescendantIsMissed` |
| `setNodeAttribute` keeps both stores in bijection | the name is not `__proto__`, and the record at its key, if any, has that name (`Attributes.SetKeepsAgree`) | `Attributes.ProtoIsNotStored`, `Attributes.SeparatorOrphansName` |
| `setNodeAttributeNS` keeps both stores in bijection | the name is not `__proto__` (`Attributes.SetNSKeepsAgree`) | `Attributes.ProtoIsNotStored` |
| issuing a request keeps issued = pending + settled | its id is not in flight (`LpjClient.RequestConserves`) | `LpjClient.ReusedIdLosesRequest` |
| text survives serialising and parsing | it holds no `&quot;` and no numeric reference (`Entities.DecodeUndoesEscapeIff`) | `Entities.QuotIsLost` |

Two more departures are part of the model: the look-up of void tags also answers yes for
the tag `constructor`, an inherited property; and a payload that is the JSON value `null`
makes the data handler throw, with the frames behind it still buffered.

## Model

| member | source | states |
|---|---|---|
| `DomRuns.RunKeepsInv` | leap-env/src/impl/00-dom-shared.impl.js:793-990 | after any run of creation, `appendChild`, `insertBefore`, `removeChild`, `setTextContent`, style changes, document releases, task scopes and `drainReleaseStats`, the tree is a forest (child lists without duplicates, listed exactly by the parent, no cycles, documents and fragments parentless, document children only elements or comments, at most one `html`), `ownedNodes` is exact, and the registries agree: `taskToDocs` is the exact non-empty inverse index, a primary document is live and of its task, `docSeq` counts live plus released documents, drained or not |
| `DomRuns.RunIsCoherent` | leap-env/src/impl/00-dom-shared.impl.js:2420-2451 | after any run without document releases every cached layout equals the one a recomputation from scratch would give |
| `DomRuns.RunNeverReusesIds` | leap-env/src/impl/00-dom-shared.impl.js:917-945 | over any run a document keeps its id or gets one larger than every id issued before the run |
| `DomHistory.HistoryKeeps` | leap-env/src/impl/00-dom-shared.impl.js:2072-2125 | what holds over every run holds across every history: invariants, id freshness and cache coherence; the markup setters, `cloneNode`, the element insertions and the `cssText` setter are proved to be histories |
| `DomShared.DomShared.AppendChild` | leap-env/src/impl/00-dom-shared.impl.js:793-833 | the new state and the exception, if any, are exactly those of the model; a null child is refused and changes nothing |
| `DomShared.DomShared.InsertBefore` | leap-env/src/impl/00-dom-shared.impl.js:848-886 | likewise, for every reference node including none |
| `DomShared.DomShared.RemoveChild` | leap-env/src/impl/00-dom-shared.impl.js:835-846 | exactly the listed child is cut, its old parent is marked dirty; a node that is no child is refused |
| `DomShared.DomShared.SetTextContent` | leap-env/src/impl/00-dom-shared.impl.js:640-653 | stores the text and, for elements and documents, cuts every child loose and invalidates the layout |
| `DomShared.DomShared.ValidateInsertion` | leap-env/src/impl/00-dom-shared.impl.js:740-791 | accepts exactly the insertions the child rules of documents, elements and fragments allow, including the count of `html` children |
| `DomShared.DomShared.DetachFromParent` | leap-env/src/impl/00-dom-shared.impl.js:655-668 | unlists the node, clears its parent and drops the cached layout of the old layout root |
| `DomShared.DomShared.AdoptOwnerDocument` | leap-env/src/impl/00-dom-shared.impl.js:969-990 | moves exactly the subtree to the new owner: owner fields and owned sets of both documents |
| `DomShared.DomShared.EnsureDocumentRegistration` | leap-env/src/impl/00-dom-shared.impl.js:230-238 | leaves a live document alone; registers any other under a new id in every index |
| `DomShared.DomShared.MarkNodeDirty` | leap-env/src/impl/00-dom-shared.impl.js:2420-2432 | marks the node and all its ancestors and drops the layout at the layout root, and nothing else |
| `DomShared.DomShared.CreateElementFor` | leap-env/src/impl/00-dom-shared.impl.js:240-261 | a fresh element, enrolled with its owner document, which is registered first if need be |
| `DomShared.DomShared.ReleaseDocument` | leap-env/src/impl/00-dom-shared.impl.js:2650-2703 | a document that is not live is left alone; a live one and exactly the nodes it owns are emptied |
| `DomShared.DomShared.ReleaseTaskScope` | leap-env/src/impl/00-dom-shared.impl.js:2705-2720 | releases exactly the documents of the task, in whatever order, and reports how many its index names |
| `DomShared.DomShared.BeginTaskScope` | leap-env/src/impl/00-dom-shared.impl.js:2771-2779 | releases the documents of every other task and makes the named (or default) task current |
| `DomShared.DomShared.EndTaskScope` | leap-env/src/impl/00-dom-shared.impl.js:2781-2791 | releases the documents of the named (or current) task and falls back to the default task |
| `DomShared.DomShared.DrainReleaseStats` | leap-env/src/impl/00-dom-shared.impl.js:2749-2757 | hands out both counters and restarts them; the number of documents ever released stays accounted for |
| `DomModel.PlaceKeepsInv` | leap-env/src/impl/00-dom-shared.impl.js:817-833 | placing one permitted node keeps the forest, exact ownership and the registries |
| `DomInsertion.InsertBeforePosition` | leap-env/src/impl/00-dom-shared.impl.js:848-886 | an inserted node ends up directly in front of the reference node if and only if it was not an earlier sibling of it |
| `DomInsertion.InsertFragmentSplices` | leap-env/src/impl/00-dom-shared.impl.js:862-870 | a fragment's children land contiguously, in order, immediately before the reference node; the fragment is left empty and every other record unchanged |
| `DomInsertion.AppendFragmentSplices` | leap-env/src/impl/00-dom-shared.impl.js:799-815 | the same at the end of the list for a fragment that does not contain the parent |
| `DomInsertion.InsertIsAtomic` | leap-env/src/impl/00-dom-shared.impl.js:848-886 | `insertBefore` succeeds exactly for a present reference and a valid, acyclic insertion; when it throws, nothing at all has changed |
| `DomInsertion.AppendFailure` | leap-env/src/impl/00-dom-shared.impl.js:793-833 | exactly when `appendChild` succeeds, and exactly when a throwing call has already moved something |
| `DomRelease.ReleaseKeepsInv` | leap-env/src/impl/00-dom-shared.impl.js:2650-2703 | releasing live documents whose fragments are empty keeps every invariant |
| `DomRelease.ReleaseForestIff` | leap-env/src/impl/00-dom-shared.impl.js:2650-2703 | after a release the tree is a forest if and only if no fragment of a released document still held children |
| `DomRelease.ReleaseLeavesOthers` | leap-env/src/impl/00-dom-shared.impl.js:2612-2703 | trees, owners, owned sets and styles of other documents are unchanged |
| `DomRelease.BeginTaskIsolates` | leap-env/src/impl/00-dom-shared.impl.js:2759-2779 | after `beginTaskScope` every live document belongs to the begun task, and that task has kept all of its documents |
| `DomRelease.EndTaskEmpties` | leap-env/src/impl/00-dom-shared.impl.js:2781-2791 | after `endTaskScope` no live document belongs to the ended task, and every other task has kept all of its documents |
| `LayoutCache.LayoutCache.GetLayoutRect` | leap-env/src/impl/00-dom-shared.impl.js:3069-3109 | for an element below a document the answer equals a layout computed from scratch; nothing but caches changes, and they stay coherent |
| `LayoutCache.LayoutCache.EnsureDoDLayout` | leap-env/src/impl/00-dom-shared.impl.js:2992-3020 | an empty cache at the layout root is refilled and mapped to every reachable element; all caches stay coherent |
| `LayoutCache.LayoutCache.BuildDoDInputTree` | leap-env/src/impl/00-dom-shared.impl.js:2976-2987 | the input is the element and style tree below the node |
| `DomLayout.ReleaseKeepsOthersCoherent` | leap-env/src/impl/00-dom-shared.impl.js:2650-2703 | a release keeps the caches of all documents it does not release coherent |
| `DomLayout.ReleasedCoherentIff` | leap-env/src/impl/00-dom-shared.impl.js:2650-2703 | the released document's own cache, which is not reset, stays coherent if and only if its layout equals the one of the emptied document |
| `StyleNames.NormalizeIsIdempotent` | leap-env/src/impl/00-dom-shared.impl.js:2379-2393 | a normalised style name normalises to itself, so what is stored under a name is found under it |
| `StyleText.SetCssText` | leap-env/src/impl/00-dom-shared.impl.js:2832-2851 | the element's style becomes the declarations of the text, nothing else changes but dropped layouts, and all of it is a run of `setStyleValue` calls |
| `StyleText.LastDeclarationWins` | leap-env/src/impl/00-dom-shared.impl.js:2832-2851 | of several declarations about one stored name the last decides; an empty one removes the name |
| `StyleText.RunKeepsStyles` | leap-env/src/impl/00-dom-shared.impl.js:2434-2451 | every run keeps stored style names normalised and on the layout allow-list |
| `ElementSplice.SpliceInSplices` | leap-env/src/impl/Element.impl.js:181-263 | arguments that are distinct and not yet children go in side by side and in order; all do exactly when all may join the parent, otherwise those in front of the first that may not |
| `ElementSplice.SiblingInsertionsLand` | leap-env/src/impl/Element.impl.js:181-214 | `after` and `before` put their arguments directly behind and in front of the element |
| `ElementSplice.ChildInsertionsLand` | leap-env/src/impl/Element.impl.js:216-243 | `append` and `prepend` put theirs at the ends of the child list |
| `ElementSplice.ReplaceWithLands` | leap-env/src/impl/Element.impl.js:245-263 | `replaceWith` puts its arguments where the element was; the element has already left when an argument is refused |
| `ElementSplice.SpliceIsHistory` | leap-env/src/impl/Element.impl.js:181-243 | the common loop is a run of record creations and `insertBefore` calls |
| `DomElement.After` | leap-env/src/impl/Element.impl.js:181-198 | on the records: new text nodes are fresh, and state and outcome are those of the loop on values |
| `DomElement.Before` | leap-env/src/impl/Element.impl.js:200-214 | likewise |
| `DomElement.Append` | leap-env/src/impl/Element.impl.js:216-228 | likewise |
| `DomElement.Prepend` | leap-env/src/impl/Element.impl.js:230-243 | likewise |
| `DomElement.ReplaceWith` | leap-env/src/impl/Element.impl.js:245-263 | likewise |
| `DomQuery.DomQuery.CollectElementDescendants` | leap-env/src/impl/00-dom-shared.impl.js:1306-1331 | the explicit stack yields the recursive preorder of the element descendants |
| `DomTraversal.DescendantsAreExact` | leap-env/src/impl/00-dom-shared.impl.js:1306-1331 | that list holds exactly the element descendants, each once, in document order |
| `DomTraversal.PrecedesAsymmetric` | leap-env/src/impl/00-dom-shared.impl.js:1306-1331 | document order, defined by where two parent chains part, is asymmetric on every forest |
| `DomTraversal.TreeOrderIsUnique` | leap-env/src/impl/00-dom-shared.impl.js:1306-1331 | document order leaves one list: two ordered lists with the same members are equal |
| `ChainMatching.GreedyIsSound` | leap-env/src/impl/00-dom-shared.impl.js:1571-1632 | a match of the greedy right-to-left walk implies a witness for every combinator of the chain |
| `ChainMatching.GreedyIsComplete` | leap-env/src/impl/00-dom-shared.impl.js:1571-1632 | for safe combinator lists every chain that has witnesses is matched although the walk never backtracks |
| `ChainMatching.ChoiceIsNearest` | leap-env/src/impl/00-dom-shared.impl.js:1588-1628 | the node the walk moves to is the nearest witness |
| `ChainLimits.UnsafeChainsMissMatches` | leap-env/src/impl/00-dom-shared.impl.js:1571-1632 | every combinator list that is not safe has a tree and token tests on which the walk misses a match |
| `ChainLimits.ChildThenDescendantIsMissed` | leap-env/src/impl/00-dom-shared.impl.js:1571-1632 | `a > b c` is such a list |
| `DomQuery.DomQuery.MatchesSelectorChain` | leap-env/src/impl/00-dom-shared.impl.js:1571-1632 | the loops compute the greedy walk |
| `DomQuery.DomQuery.GetElementIndexInParent` | leap-env/src/impl/00-dom-shared.impl.js:1352-1375 | the loop computes the index among the siblings |
| `SelectorMatching.ElementIndexMeans` | leap-env/src/impl/00-dom-shared.impl.js:1352-1375 | the index is one more than the number of earlier element siblings, of the same tag if asked |
| `SelectorMatching.FirstChildHasIndexOne` | leap-env/src/impl/00-dom-shared.impl.js:1461-1503 | `:first-child` and `:nth-child(1)` agree |
| `DomQuery.DomQuery.QuerySelectorAll` | leap-env/src/impl/00-dom-shared.impl.js:1634-1663 | computes the filter of the descendants by the parsed selector list |
| `DomQuery.DomQuery.QuerySelector` | leap-env/src/impl/00-dom-shared.impl.js:1665-1668 | returns the first hit of `querySelectorAll`, or null |
| `DomQuery.DomQuery.MatchesSelector` | leap-env/src/impl/00-dom-shared.impl.js:2253-2265 | is true exactly when some chain of the list matches |
| `DomQuery.DomQuery.GetElementById` | leap-env/src/impl/00-dom-shared.impl.js:1714-1726 | returns the first descendant in document order with the id |
| `SelectorMatching.QueryIsExact` | leap-env/src/impl/00-dom-shared.impl.js:1634-1663 | the result is the duplicate-free document-order list of exactly the matching descendants |
| `SelectorMatching.QueryAgreesWithMatches` | leap-env/src/impl/00-dom-shared.impl.js:2253-2265 | without `:scope` a descendant is in the result exactly when `matchesSelector` holds of it |
| `SelectorMatching.QueryMeans` | leap-env/src/impl/00-dom-shared.impl.js:1634-1663 | for safe chains the result is what the combinators ask for |
| `QueryText.IdQueryAgrees` | leap-env/src/impl/00-dom-shared.impl.js:1714-1726 | `getElementById` and the query for `#id` agree |
| `QueryText.TagQueryAgrees` | leap-env/src/impl/00-dom-shared.impl.js:1670-1685 | `getElementsByTagName` and the query for the tag agree |
| `SelectorText.SplitSelectorGroups` | leap-env/src/impl/00-dom-shared.impl.js:992-1058 | the scanner computes the split at top-level commas |
| `SelectorText.SplitUndoesJoinIff` | leap-env/src/impl/00-dom-shared.impl.js:992-1058 | splitting undoes joining by commas if and only if the groups are trimmed, non-empty, without top-level comma, and balanced in quotes and brackets but for the last |
| `SelectorText.SplitIsStable` | leap-env/src/impl/00-dom-shared.impl.js:992-1058 | what was split once splits the same way again |
| `SelectorGroups.ParseSelectorGroup` | leap-env/src/impl/00-dom-shared.impl.js:1180-1304 | the scanner computes the token and combinator sequence of one group |
| `SelectorGroups.ParseUndoesPrint` | leap-env/src/impl/00-dom-shared.impl.js:1180-1304 | parsing undoes printing a chain of tag, id and class tokens with its combinators and any spacing |
| `QueryText.ParseUndoesPrintList` | leap-env/src/impl/00-dom-shared.impl.js:992-1304 | the same for whole selector lists |
| `EventDispatch.EventTargets.DispatchEvent` | leap-env/src/impl/00-dom-shared.impl.js:3534-3607 | the calls made, the flags and the removal of `once` listeners are those of running capture groups from the root, the target's capture and bubble listeners, and, if the event bubbles, the bubble groups back to the root; the result is the negation of `defaultPrevented` |
| `EventDispatch.EventTargets.InvokeEventListenersAtNode` | leap-env/src/impl/00-dom-shared.impl.js:3500-3532 | the matching listeners of one node are called in registration order until an immediate stop |
| `EventDispatch.EventTargets.AddEventListener` | leap-env/src/impl/00-dom-shared.impl.js:3460-3480 | appends an entry unless one with the same function and phase is there |
| `EventDispatch.EventTargets.RemoveEventListener` | leap-env/src/impl/00-dom-shared.impl.js:3482-3498 | removes the entry with that function and phase |
| `EventOrder.GroupsMade` | leap-env/src/impl/00-dom-shared.impl.js:3534-3607 | the trace is a prefix of the listed calls: every group that is reached runs up to the first immediate stop, and nothing behind a stop is called |
| `EventOrder.AllCalledWithoutStop` | leap-env/src/impl/00-dom-shared.impl.js:3534-3607 | without stop flags every listed listener is called |
| `EventOrder.TargetIsOneGroup` | leap-env/src/impl/00-dom-shared.impl.js:3568-3582 | bubble listeners at the target still run after `stopPropagation` in a target capture listener |
| `EventOrder.PathIsChain` | leap-env/src/impl/00-dom-shared.impl.js:3536-3543 | the path is the parent chain of the target up to its root |
| `EventDispatch.FiredMembers` | leap-env/src/impl/00-dom-shared.impl.js:3500-3532 | after a dispatch exactly the called `once` listeners are gone |
| `Attributes.RunKeepsAgree` | leap-env/src/impl/00-dom-shared.impl.js:323-512 | any run of the four operations with ordinary names and namespaces keeps the two stores in bijection, every record at its own key |
| `Attributes.SetKeepsAgree` | leap-env/src/impl/00-dom-shared.impl.js:377-415 | `setNodeAttribute` keeps the bijection if and only if the name is stored at all and no record of another name sits at its key |
| `Attributes.SetNSKeepsAgree` | leap-env/src/impl/00-dom-shared.impl.js:323-375 | `setNodeAttributeNS` keeps it if and only if the name is one a plain object stores |
| `Attributes.RemoveKeepsAgree` | leap-env/src/impl/00-dom-shared.impl.js:488-512 | `removeNodeAttribute` keeps it |
| `Attributes.RemoveNSKeepsAgree` | leap-env/src/impl/00-dom-shared.impl.js:461-486 | `removeNodeAttributeNS` keeps it |
| `Attributes.GettersAgree` | leap-env/src/impl/00-dom-shared.impl.js:417-443 | both getters give the same value for a record |
| `Attributes.SetThenGet` | leap-env/src/impl/00-dom-shared.impl.js:377-443 | what was set is read back, and other names read as before |
| `Attributes.SetNSThenGet` | leap-env/src/impl/00-dom-shared.impl.js:323-431 | the same for namespaced attributes |
| `Attributes.RemoveThenGet` | leap-env/src/impl/00-dom-shared.impl.js:433-512 | a removed name reads as absent, the others as before |
| `Attributes.ParseQualifiedMeans` | leap-env/src/impl/00-dom-shared.impl.js:270-291 | a qualified name is accepted exactly when it is one part, or two non-empty parts around a single colon |
| `Attributes.KeyIsInjective` | leap-env/src/impl/00-dom-shared.impl.js:318-321 | the key determines namespace and local name while namespaces hold no separator |
| `ElementAttributes.ElementAttributes.SetNodeAttribute` | leap-env/src/impl/00-dom-shared.impl.js:377-415 | the in-place loops leave the stores of the model |
| `ElementAttributes.ElementAttributes.SetNodeAttributeNS` | leap-env/src/impl/00-dom-shared.impl.js:323-375 | likewise, with the exceptions of name parsing |
| `ElementAttributes.ElementAttributes.RemoveNodeAttribute` | leap-env/src/impl/00-dom-shared.impl.js:488-512 | likewise |
| `ElementAttributes.ElementAttributes.RemoveNodeAttributeNS` | leap-env/src/impl/00-dom-shared.impl.js:461-486 | likewise |
| `MarkupDom.MarkupDom.SerializeNode` | leap-env/src/impl/00-dom-shared.impl.js:1973-2005 | the text is the serialisation of the markup the node stands for |
| `MarkupDom.MarkupDom.SerializeChildren` | leap-env/src/impl/00-dom-shared.impl.js:2007-2014 | likewise for the children |
| `MarkupDom.MarkupDom.ParseHTMLFragment` | leap-env/src/impl/00-dom-shared.impl.js:2018-2070 | the children parsed from the text are added behind those there were, every other record is as before, and the calls made form a history |
| `MarkupDom.MarkupDom.AddElement` | leap-env/src/impl/00-dom-shared.impl.js:2063-2067 | a parsed element is new, last under its parent, has the parsed attributes, and takes its inline style from its `style` attribute |
| `MarkupDom.MarkupDom.SetInnerHTML` | leap-env/src/impl/00-dom-shared.impl.js:2072-2078 | the children show exactly the parsed markup, all other records are kept, and the operation is a history |
| `OuterMarkup.SetOuterHTML` | leap-env/src/impl/00-dom-shared.impl.js:2080-2089 | the parsed markup takes the place of the node in the parent's markup; other records are kept, a refusal leaves every old record unchanged, and the operation is a history |
| `OuterMarkup.ReassignInnerHTML` | leap-env/src/impl/00-dom-shared.impl.js:1973-2078 | assigning `innerHTML` to itself reads the children's markup back; it is unchanged, up to merging texts, exactly when it is faithful |
| `MarkupRoundTrip.ParseReadsSerialized` | leap-env/src/impl/00-dom-shared.impl.js:1963-2070 | parsing the serialisation of shaped markup gives it back node by node, adjacent texts merged, empty ones dropped, texts decoded once and values still escaped |
| `MarkupRoundTrip.ParseUndoesSerializeIff` | leap-env/src/impl/00-dom-shared.impl.js:1963-2070 | shaped markup survives, up to merging, if and only if its texts hold no `&quot;` and no numeric reference and its values neither `&` nor `"`; then it serialises to the same text again |
| `MarkupRoundTrip.NormalizeAllKeepsText` | leap-env/src/impl/00-dom-shared.impl.js:2007-2014 | merging adjacent and dropping empty texts does not show in the serialisation |
| `Entities.DecodeUndoesEscapeIff` | leap-env/src/impl/00-dom-shared.impl.js:1963-1966 | a text survives escaping and decoding if and only if it holds no `&quot;` and no numeric reference |
| `Entities.EscapeAttrIsIdentityIff` | leap-env/src/impl/00-dom-shared.impl.js:1968-1971 | a value is written as it is if and only if it holds neither `&` nor `"` |
| `MarkupDom.MarkupDom.CloneNode` | leap-env/src/impl/00-dom-shared.impl.js:2093-2125 | the copy is made of new nodes and disjoint from everything there was; a one-to-one map keeps contents, attributes, styles and child lists; the original is unchanged, the markup is the same, and the operation is a history |
| `DomCopies.CoversBelow` | leap-env/src/impl/00-dom-shared.impl.js:2093-2125 | the map of a deep copy covers the whole subtree |
| `DomCopies.OnlyCopiesBelow` | leap-env/src/impl/00-dom-shared.impl.js:2093-2125 | nothing but copies lies below the copy |
| `MarkupDom.MarkupDom.CopySerializes` | leap-env/src/impl/00-dom-shared.impl.js:1973-2125 | the copy of a subtree without inline styles has none either, so it serialises, to the same text |
| `LpjFrames.ReadUndoesWrite` | leap-env/src/client/standalone-client.js:257-263 | reading the four header bytes gives the length that was written |
| `LpjFrames.FeedIsParse` | leap-env/src/client/standalone-client.js:203-236 | feeding a buffer chunk by chunk delivers what parsing all of it at once would |
| `LpjFrames.ReassemblyIsExact` | leap-env/src/client/standalone-client.js:203-236 | any split of concatenated encoded messages within the size limit, and of a part of a further one, delivers exactly those messages in order and leaves exactly the unconsumed rest |
| `LpjFrames.CutFrameIsIncomplete` | leap-env/src/client/standalone-client.js:203-236 | a frame that is cut short delivers nothing |
| `LpjClient.RunSettlesOnce` | leap-env/src/client/standalone-client.js:159-252 | in every interleaving of requests, data, timeouts, disconnects and closes no promise is settled twice, reused ids or not |
| `LpjClient.RunConserves` | leap-env/src/client/standalone-client.js:159-252 | with ids fresh while in flight, issued requests are always pending, resolved, timed out or rejected, and every armed timer belongs to a pending one |
| `LpjClient.RequestConserves` | leap-env/src/client/standalone-client.js:181-198 | issuing a request keeps that count if and only if its id is not in flight |
| `LpjClient.DisconnectConserves` | leap-env/src/client/standalone-client.js:159-172 | disconnecting keeps the count and leaves nothing pending |
| `StandaloneClient.StandaloneClient.Request` | leap-env/src/client/standalone-client.js:181-198 | the fields after the call are those of the model's transition |
| `StandaloneClient.StandaloneClient.OnTimeout` | leap-env/src/client/standalone-client.js:188-193 | likewise for the timer callback |
| `StandaloneClient.StandaloneClient.OnData` | leap-env/src/client/standalone-client.js:203-236 | likewise for data, including the length limit and a payload whose field access throws |
| `StandaloneClient.StandaloneClient.Disconnect` | leap-env/src/client/standalone-client.js:159-172 | likewise for `disconnect` and the close handler |
| `Sha256.PadMessage` | leap-env/src/impl/CryptoJS.impl.js:50-66 | the padding loop ends at a multiple of 64 and gives the padding of section 5.1.1 of FIPS 180-4 |
| `Sha256.LengthBytes` | leap-env/src/impl/CryptoJS.impl.js:51-66 | the two halves of the bit length are its 64-bit big-endian bytes and together are the length |
| `Sha256.FillSchedule` | leap-env/src/impl/CryptoJS.impl.js:78-93 | the two loops fill the array with the message schedule |
| `Sha256.RunRounds` | leap-env/src/impl/CryptoJS.impl.js:95-113 | the round loop computes the 64 rounds of section 6.2.2 |
| `Sha256.HashMessage` | leap-env/src/impl/CryptoJS.impl.js:49-123 | the whole computation refines the recursive definition, for every byte string |
| `Sha256.Sha256Hex` | leap-env/src/impl/CryptoJS.impl.js:49-129 | the text is the eight words in eight digits each |
| `Sha256.ToHex32` | leap-env/src/impl/CryptoJS.impl.js:43-47 | a word is written in eight digits |
| `Sha256.ParseHexWords` | leap-env/src/impl/CryptoJS.impl.js:131-137 | the loop computes the words of the text |
| `Sha256.DigestReadsBack` | leap-env/src/impl/CryptoJS.impl.js:125-137 | parsing the 64 digits of a digest gives back its eight words |
| `Sha256Spec.ZeroBytesIsLeast` | leap-env/src/impl/CryptoJS.impl.js:54-57 | the padding is the shortest that leaves eight bytes to the end of a block |
| `SeededStream.ShiftIsBijective` | leap-env/src/impl/Crypto.impl.js:69-77 | one xorshift step is undone by an explicit inverse |
| `SeededStream.OnlyZeroIsFixed` | leap-env/src/impl/Crypto.impl.js:69-77 | zero is the only word it fixes |
| `SeededStream.SeedIsNonZero` | leap-env/src/impl/Crypto.impl.js:58-67 | the seed hash is never zero |
| `SeededStream.NextIsNonZero` | leap-env/src/impl/Crypto.impl.js:69-77 | so the state never becomes zero and never reseeds in mid-stream |
| `CryptoRandom.DrawsJoin` | leap-env/src/impl/Crypto.impl.js:79-108 | drawing m and then n bytes under one task and seed is drawing m + n |
| `CryptoRandom.SplittingDoesNotMatter` | leap-env/src/impl/Crypto.impl.js:79-148 | the bytes drawn do not depend on how they are split across calls |
| `CryptoRandom.HexTextReadsBack` | leap-env/src/impl/Crypto.impl.js:139-148 | the hexadecimal text gives back its bytes |
| `CryptoRandom.CryptoRandom.EnsureCryptoRngState` | leap-env/src/impl/Crypto.impl.js:79-95 | the module state is kept while task and seed stay the same and seeded anew otherwise |
| `CryptoRandom.CryptoRandom.FillRandomBytes` | leap-env/src/impl/Crypto.impl.js:104-108 | the view holds the next bytes of the stream |
| `CryptoRandom.CryptoRandom.GenerateRandomHex` | leap-env/src/impl/Crypto.impl.js:139-148 | the text shows the next bytes of the stream |
| `DomFindings.EarlierSiblingLandsBehind` | leap-env/src/impl/00-dom-shared.impl.js:853-872 | children c, x, b: `insertBefore(c, b)` leaves x, b, c |
| `DomFindings.FailingAppendMoves` | leap-env/src/impl/00-dom-shared.impl.js:799-815 | a fragment whose second branch holds the parent: `appendChild` throws after its first child has moved |
| `DomFindings.LoadedFragmentBreaksForest` | leap-env/src/impl/00-dom-shared.impl.js:2650-2703 | a released document's fragment with a child: the tree is no forest any more |
| `DomFindings.LayoutOutlivesRelease` | leap-env/src/impl/00-dom-shared.impl.js:2650-2703 | a released document's cached layout still shows the element it no longer has |
| `Attributes.ProtoIsNotStored` | leap-env/src/impl/00-dom-shared.impl.js:359-361 | the name `__proto__` gets a record but no stored value |
| `Attributes.SeparatorOrphansName` | leap-env/src/impl/00-dom-shared.impl.js:318-321 | a separator in a namespace leaves a stored name without record |
| `LpjClient.ReusedIdLosesRequest` | leap-env/src/client/standalone-client.js:195-196 | a request id reused in flight: the first promise is neither pending nor settled |
| `Entities.QuotIsLost` | leap-env/src/impl/00-dom-shared.impl.js:1963-1966 | the text `&quot;` does not survive |

## Left out

- Parsing into and setting markup on a node without owner document: there the source gives texts and comments the node itself as owner, and taking them from that owner turns the node into a document record.
- clearDocumentChildren, parseHTMLIntoDocument and the default document tree: they null the parent fields of a subtree but keep its child lists, so no tree invariant survives them.
- cloneNode of documents, and the namespaced attribute store of a clone: the source does not copy that store.
- Serialising elements with an inline style but no `style` attribute; the markup model carries no styles.
- The effect of a `style` attribute outside the parser: `StyleText.SetCssText` models the assignment to `cssText` and `DomRuns.Step` the restyling by its removal, but the attribute classes have no link to the node records.
- Attribute order: names that look like array indices come first in the source; the model keeps insertion order.
- Elements in other namespaces, and namespaces in markup.
- The tests for attribute selectors, `:nth-child` arguments and class or id tokens are parameters of the matcher; tokens with `[` or `:` are parsed by a parameter.
- Upper and lower case, white space and name characters beyond ASCII.
- The layout engine is a function from the element and style tree to rectangles named by child positions; reading padding and border from the style is a parameter, and the write-only fields for single rectangles and dirty flags have no property of their own.
- Listeners that change the tree or the listener lists while an event is dispatched, nested dispatch, and the event object's other fields; how listeners react to the flags is an arbitrary function of the calls made so far.
- EventDispatch.EventTargets.DispatchEvent: asks that an event whose immediate stop flag is set also has its stop flag set, which is how the source's own methods leave events; the flags are not reset at the start.
- Reconnecting the client, socket identity, real timers, and promises beyond their settlement; requests refused for want of a connection are not counted as issued.
- JSON and UTF-8 encoding: payloads are byte strings with an arbitrary total decoder; SHA-256 starts from bytes.
- The look-up of the task and its seed, and Math.random, are parameters; randomUUID and the argument checks of getRandomValues are not part of this model.
- Node creation through the native bridge is a fresh record; native backends, trace output and visibility handling are not part of this model.
- getElementsByClassName, live collections, class lists and named node maps: thin wrappers around what is here.
