# SnippetHierarchy, modelled in Dafny

`SnippetHierarchy` is the tree extension of the silverstripe-codebank
snippet CMS. The tree has four node classes:

- Package
- Language, which holds folders and top-level snippets
- Folder, which holds folders and snippets
- Snippet

The extension does several jobs:

- It resolves a node's children (`stageChildren`) and counts them (`numChildren`).
- It marks a partial tree for display: `markPartialTree` runs a breadth-first walk over a growing keyed queue (`markedNodes`). The walk writes three shared flag tables: `marked`, `expanded` and `treeOpened`. Each child must pass a marking filter. `markById` and `markToExpose` open paths on demand.
- It guards against `LanguageID` cycles (`validate`).
- It offers path utilities: ancestors, breadcrumbs, the parent stack, the descendant ID list and the "natural next" node.

The model works over an immutable node store. `Store.Db` maps a `(kind, ID)` key to a record. The record holds LanguageID, FolderID, Sort, Title and extra attributes. The store also carries the order in which the ORM lists rows. Every listing keeps that order; it is ascending Sort when `Store.SortedBySort` holds.

The relations `Language()` and `Folder()` are `Option` lookups. The static flag arrays and the instance fields (`markedNodes`, `markingFilter`, the cached child count) are threaded explicitly: `Marks.MarkState` and `Engine.Hierarchy` hold them. Each PHP method becomes a function from state to new state.

The modules follow the structure of the class:

| file | module | covers |
|---|---|---|
| wrappers.dfy, seqs.dfy | Wrappers, Seqs | `Option`; facts about duplicate-free sequences |
| store.dfy | Store | keys, records, class names, the `Language()` / `Folder()` lookups, attribute access |
| children.dfy | Children | `stageChildren`, `numChildren` and its cache |
| marks.dfy | Marks | `markExpanded` / `markUnexpanded` / `markOpened`, the `is*` readers, `markingClasses` |
| filtering.dfy | Filtering | `markingFilterMatches` |
| engine.dfy | Engine | `markPartialTree`, `markChildren`, `markById`, `markToExpose`, `markingFinished`, the filter setters, `reset`, `flushCache` |
| validator.dfy | Validator | `validate` |
| paths.dfy | Paths | `getAncestors`, `getBreadcrumbs`, `parentStack` |
| descendants.dfy | Descendants, DescendantsExample | `loadDescendantIDListInto`, `getDescendantIDList` |
| navigation.dfy | Navigation | `naturalNext`, `naturalPrev` |
| keynames.dfy | KeyNames | the `ClassName_ID` keys and `markedNodeIDs` |

Behaviour of the code a reader may not expect:

- `stageChildren` on the ID-0 package lists all packages.
- `validate` starts its upward walk at the saved node itself, so a node whose LanguageID is its own ID is reported.
- When `markChildren` re-meets a node that is already queued, the node keeps its queue position. Its flags are still overwritten, and a node with children goes back to unexpanded.
- Breadcrumbs and ancestors follow only `Language()`, so folders never appear in them: a snippet in folder "Strings" of language "PHP" has the breadcrumb "PHP > trim".
- The count `markPartialTree` returns can exceed the number of stored rows by one. This happens when the root is the virtual ID-0 node, which has no row.

## Model

| member | source | states |
|---|---|---|
| Children.SelectFrom | code/extensions/SnippetHierarchy.php:577-588 | a listing holds exactly the rows the query selects, and repeats none when the rows repeat none |
| Children.SelectFromInOrder | code/extensions/SnippetHierarchy.php:577-588 | a listing keeps storage order: its entries are the rows at strictly increasing positions |
| Children.SelectSorted | code/extensions/SnippetHierarchy.php:127 | when the store lists its rows in ascending Sort, every listing is in ascending Sort, as the `"Sort" ASC` query promises |
| Children.SelectCount | code/extensions/SnippetHierarchy.php:247-261 | on a consistent store, the length of a listing equals the COUNT of the same query |
| Children.StageChildren | code/extensions/SnippetHierarchy.php:572-594 | every child listed is a row of the store |
| Children.StageChildrenMembers | code/extensions/SnippetHierarchy.php:572-594 | a key is listed exactly when it is a stored row in the per-class child relation: for the ID-0 package every package, for the ID-0 language every language, for another language its top-level folders and its snippets with FolderID 0, for a folder its folders and all its snippets, and nothing otherwise; all folders come before all snippets; on a consistent store no child is listed twice |
| Children.NumChildrenAgrees | code/extensions/SnippetHierarchy.php:247-261 | the count equals the length of the child list for a language with ID other than 0 and for a folder; it is 0 for a package or a snippet, even for the ID-0 package, which does list children |
| Children.NumChildrenCached | code/extensions/SnippetHierarchy.php:247-261 | with the cache on and filled, the cached value is returned; otherwise the count is recomputed; either way the cache then holds the answer |
| Children.CacheIsSticky | code/extensions/SnippetHierarchy.php:247-261 | once computed with the cache on, the count is returned unchanged by later calls, even after the store changes |
| Marks.MarkExpanded | code/extensions/SnippetHierarchy.php:404-407 | the node becomes marked and expanded; its treeOpened flag and every other key's flags are unchanged |
| Marks.MarkUnexpanded | code/extensions/SnippetHierarchy.php:412-415 | the node becomes marked and not expanded; its treeOpened flag and every other key's flags are unchanged |
| Marks.MarkOpened | code/extensions/SnippetHierarchy.php:420-423 | the node becomes marked and tree-opened; its expanded flag and every other key's flags are unchanged |
| Marks.ClearedReadsFalse | code/extensions/SnippetHierarchy.php:429-452 | in the cleared state every key reads unmarked, unexpanded and not opened |
| Marks.MarkingClassList | code/extensions/SnippetHierarchy.php:381-392 | "unexpanded" and "jstree-closed" appear exactly when the node is not expanded; "jstree-open" appears exactly when it is tree-opened and has children; "closed" appears exactly when it is not tree-opened |
| Filtering.AnyEquals | code/extensions/SnippetHierarchy.php:344-351 | the early-exit scan over an array value is true exactly when some element equals the attribute |
| Filtering.FilterMatches | code/extensions/SnippetHierarchy.php:339-360 | no filter lets everything through; a parameter filter with a falsy name lets nothing through; a scalar value needs equality; an array value needs one equal element, so an empty array matches nothing; a function filter gives the function's answer |
| Engine.Insert | code/extensions/SnippetHierarchy.php:202 | a new key is appended to `markedNodes`; an existing key keeps its first-insertion position; no key is ever duplicated |
| Engine.SetMarkingFilter | code/extensions/SnippetHierarchy.php:316-321 | the filter becomes the parameter filter; marks and queue are untouched |
| Engine.SetMarkingFilterFunction | code/extensions/SnippetHierarchy.php:328-332 | the filter becomes the function filter; marks and queue are untouched |
| Engine.LastFilterWins | code/extensions/SnippetHierarchy.php:316-332 | whichever setter was called last decides what passes |
| Engine.MarkEachQueue | code/extensions/SnippetHierarchy.php:193-204 | the child loop keeps the old queue as a prefix and adds exactly the children that pass the filter, without duplicates |
| Engine.MarkEachOrder | code/extensions/SnippetHierarchy.php:193-204 | the entries the child loop appends are children of the listing at strictly increasing positions, so they keep the listing's order |
| Engine.MarkEachFlags | code/extensions/SnippetHierarchy.php:193-204 | each passing child ends marked, and expanded exactly when it has no children; a child that fails the filter keeps its flags, as does every key outside the list |
| Engine.MarkChildrenQueue | code/extensions/SnippetHierarchy.php:185-206 | after `markChildren(k)` the queue is the old queue followed by the new passing children of `k`, still duplicate-free |
| Engine.MarkChildrenOrder | code/extensions/SnippetHierarchy.php:185-206 | the children `markChildren(k)` appends come in the order `k`'s children are listed |
| Engine.MarkChildrenFlags | code/extensions/SnippetHierarchy.php:185-206 | `k` ends marked, and expanded unless it is its own passing child; each passing child is marked, and expanded exactly when it has no children; every other key keeps its flags; no mark is lost and no treeOpened flag changes |
| Engine.MarkById | code/extensions/SnippetHierarchy.php:213-224 | the answer is true exactly when the class and ID name a queued key; when false nothing changes; when true the key's passing children are queued, and with `open` the node ends marked and tree-opened |
| Engine.ExposeEach | code/extensions/SnippetHierarchy.php:232-235 | `markById(open)` over a stack loses no queued key, mark or open flag, and adds no duplicate |
| Engine.MarkToExpose | code/extensions/SnippetHierarchy.php:230-237 | a missing target changes nothing; otherwise the queue stays duplicate-free and no mark is lost |
| Engine.ExposeMarksPath | code/extensions/SnippetHierarchy.php:232-235 | when the first stack item is queued and each item is a passing child of the one before, every item ends marked and tree-opened |
| Engine.MarkToExposeOpensPath | code/extensions/SnippetHierarchy.php:230-237 | under those conditions on the reversed parent stack, every node from the target up to the top ends marked and tree-opened |
| Engine.MarkingFinished | code/extensions/SnippetHierarchy.php:366-375 | every queued node without children ends expanded (and marked if it was not expanded); queued nodes with children and keys outside the queue keep their flags |
| Engine.Reset | code/extensions/SnippetHierarchy.php:629-633 | all three tables read false for every key; the queue and the cached count are kept |
| Engine.FlushCache | code/extensions/SnippetHierarchy.php:621-627 | all three tables read false and the cached count is dropped |
| Engine.FlushRecounts | code/extensions/SnippetHierarchy.php:621-627 | after `flushCache` the owner's `numChildren` is recomputed from the store |
| Engine.MinCount | code/extensions/SnippetHierarchy.php:165-173 | a non-numeric minimum becomes 30; the int 0, the float 0.0 and the string "0" are falsy and never stop the walk; any other number, including 0.5 or the string "0.0", is compared with the queue size as a number |
| Engine.ExpandNext | code/extensions/SnippetHierarchy.php:171-173 | one `markChildren` step on the next queued node keeps the queue invariant (root first, duplicate-free, every entry marked, every later entry a passing child of an earlier processed one, every passing child of a processed entry queued) and never uncovers a key |
| Engine.ShapeStep | code/extensions/SnippetHierarchy.php:171-173 | one `markChildren` step keeps the root first, the queue duplicate-free and within the rows plus the root, the filter and cache unchanged, and never uncovers a key |
| Engine.MarkedStep | code/extensions/SnippetHierarchy.php:185-206 | after one step every queued key is still marked and every key outside the queue keeps its original flags |
| Engine.ReinsertedKept | code/extensions/SnippetHierarchy.php:193-204 | after one step every processed entry, the new one included, is expanded unless a processed entry re-queued it as a child with children |
| Engine.ClosedKept | code/extensions/SnippetHierarchy.php:185-206 | after `markChildren` on the next queued node, every passing child of every processed node, that node included, is queued |
| Engine.Drain | code/extensions/SnippetHierarchy.php:171-176 | the loop stops with the invariant, having processed the whole queue or reached the minimum size; it stops at the first expansion that reaches the minimum, so the queue before the last expansion was still short of it (unless that was the root's); that earlier queue is exactly the root and the passing children of the entries processed before the last one; a falsy minimum drains the queue; a minimum of at most 1 stops after the first expansion |
| Engine.DrainStep | code/extensions/SnippetHierarchy.php:171-176 | one pass of the loop keeps the loop invariant, and the loop stops exactly when the queue has reached the minimum |
| Engine.LayeredFrom | code/extensions/SnippetHierarchy.php:171-173 | the queue as it stood before the last expansion holds exactly the root and the passing children of the entries expanded before it |
| Engine.MarkPartialTree | code/extensions/SnippetHierarchy.php:164-179 | the answer is the queue size, at least 1 and at most one more than the number of rows; the root comes first; the queue is duplicate-free; every queued node is marked and every other key keeps its flags; processing stopped because the queue was drained or the minimum was reached, and at the first expansion that reached it: the queue before the last expansion was shorter than the minimum unless only the root was expanded, and it held exactly the root and the passing children of the earlier processed entries; a minimum of at most 1 (such as 0.5 or "0.0") stops after expanding the root; every entry after the root is a passing child of a processed entry; every passing child of a processed entry is queued, so with a falsy minimum the queue is closed under passing children; every processed entry is expanded unless it was re-queued later as a child with children |
| Validator.ClimbMeaning | code/extensions/SnippetHierarchy.php:40-55 | the loop stops with a hit exactly when some node on the upward `Language()` walk (the saved node included) has the saved node's ID as its LanguageID, and stops at the top only when none does |
| Validator.Validate | code/extensions/SnippetHierarchy.php:34-56 | an error is reported exactly when the node has an ID, has a LanguageID, that LanguageID changed, and the walk hits the node's ID; the only error is INFINITE_LOOP; a node that names itself as its language is always reported |
| Paths.GetAncestors | code/extensions/SnippetHierarchy.php:96-105 | the result is the whole `Language()` chain above the node, nearest first |
| Paths.ChainUnique | code/extensions/SnippetHierarchy.php:96-105 | a node has at most one such chain |
| Paths.AncestorsStep | code/extensions/SnippetHierarchy.php:96-105 | the node itself is never among its ancestors; without a language there are none; otherwise they are the language followed by the language's ancestors |
| Paths.BreadcrumbsStep | code/extensions/SnippetHierarchy.php:603-609 | a node without a language yields just its title; otherwise the breadcrumb is the language's breadcrumb, the separator and the node's title |
| Paths.ParentStack | code/extensions/SnippetHierarchy.php:65-81 | the stack starts with the node; each next entry is the enclosing folder when FolderID > 0 and the language otherwise; every entry after the first is a row; the last has no folder and no language |
| Descendants.LoadInto | code/extensions/SnippetHierarchy.php:486-499 | the walk keeps the list it was given as a prefix and appends exactly the IDs of the children it visits; a duplicate-free list stays duplicate-free |
| Descendants.GetDescendantIDList | code/extensions/SnippetHierarchy.php:476-480 | the descendant ID list repeats no ID |
| Descendants.LoadIntoCovers | code/extensions/SnippetHierarchy.php:486-499 | the ID of every child of the node is in the list |
| Descendants.LoadIntoSound | code/extensions/SnippetHierarchy.php:486-499 | every visited key is a child of the start or of a key visited before it, so only keys below the start are visited |
| Descendants.DescendantsComplete | code/extensions/SnippetHierarchy.php:486-499 | when no two rows share a tag, the walk visits the whole subtree below the node |
| Descendants.DescendantIDListMeaning | code/extensions/SnippetHierarchy.php:476-499 | the ID list is the IDs of the visited keys in visiting order; it has every child's ID; it lists only descendants; it covers the whole subtree when no two rows share an ID |
| DescendantsExample.BareIdSkipsSubtree | code/extensions/SnippetHierarchy.php:489-492 | on a store where folder 5 and snippet 5 share an ID, the list from language 1 is [2, 5] and misses snippet 9 below folder 5, while the walk that deduplicates whole keys lists 9 |
| Descendants.ByKeyComplete | code/extensions/SnippetHierarchy.php:486-499 | the corrected walk visits no key twice and reaches every child and every child of a visited key, so every descendant's ID is listed, with no condition on the store |
| Descendants.ByKeyHolds | code/extensions/SnippetHierarchy.php:476-499 | the corrected list holds the ID of every descendant of the node (every key reached down a chain of stage children), on any store |
| Descendants.ByKeyOnly | code/extensions/SnippetHierarchy.php:476-499 | every ID in the corrected list is the ID of a descendant of the node |
| Descendants.DescendantIDListSubtree | code/extensions/SnippetHierarchy.php:476-499 | the list as written holds only IDs of descendants of the node, and the ID of every descendant when no two rows share an ID |
| Navigation.NextWithin | code/extensions/SnippetHierarchy.php:115-151 | a node found passes the class filter, and it is a row of the store unless it is the node itself, reached from a node with another ID |
| Navigation.FirstFound | code/extensions/SnippetHierarchy.php:133-143 | a node found below a child passes the class filter and is a row |
| Navigation.WithinMono | code/extensions/SnippetHierarchy.php:115-151 | allowing deeper recursion never changes the answer of a search that finishes |
| Navigation.NaturalNext | code/extensions/SnippetHierarchy.php:115-151 | the node returned passes the class filter and is a row, or the node itself when reached from another ID |
| Navigation.FirstFoundMeaning | code/extensions/SnippetHierarchy.php:133-143 | the child loop answers what the first child whose own search finds something finds, every earlier child finding nothing; it finds nothing only when every child's search finds nothing |
| Navigation.NaturalNextStep | code/extensions/SnippetHierarchy.php:115-151 | on every input where the search finishes: the node itself when it was reached from another ID and the filter admits it; otherwise the answer of the first child, in listing order, whose own search finds something, all earlier children finding nothing; otherwise nothing when the root bound names the node or it has no language; otherwise the answer of the search from its language, coming from the node |
| Navigation.NaturalNextAnyDepth | code/extensions/SnippetHierarchy.php:115-151 | any depth at which the search finishes gives the same answer as `naturalNext` |
| Navigation.FirstChildFound | code/extensions/SnippetHierarchy.php:118-143 | from a node with no previous node, the answer is the first listed same-class row with LanguageID equal to its ID, when the filter admits its class and that row has another ID; when the store lists rows in ascending Sort, that row has the lowest Sort of them |
| Navigation.AscentFindsParent | code/extensions/SnippetHierarchy.php:118-148 | with nothing below and a root bound that does not name the node, the search climbs and answers the node's language itself, when the filter admits languages and the IDs differ |
| Navigation.BoundedStaysBelow | code/extensions/SnippetHierarchy.php:133-148 | when the root bound names the node, whatever is found is the node or lies down a chain of same-class LanguageID links from it |
| Navigation.BoundedOtherClassNotFound | code/extensions/SnippetHierarchy.php:119-148 | a search bounded at the node for another class finds nothing, because every row below has the node's class |
| Navigation.NaturalPrev | code/extensions/SnippetHierarchy.php:617-619 | the answer is always null |
| KeyNames.KeyNameRoundTrip | code/extensions/SnippetHierarchy.php:202 | a key's `ClassName_ID` string parses back to the key |
| KeyNames.ParseKeyNameExact | code/extensions/SnippetHierarchy.php:202 | a string parses to a key exactly when it is that key's `ClassName_ID` string |
| KeyNames.MarkedNodeIDsDecode | code/extensions/SnippetHierarchy.php:397-399 | each name in `markedNodeIDs` parses to the queued key at the same position, and a duplicate-free queue gives duplicate-free names |
| KeyNames.MarkedNodeIDsMembers | code/extensions/SnippetHierarchy.php:397-399 | a string is among the names exactly when it parses to a queued key |
| KeyNames.ClassKeyParses | code/extensions/SnippetHierarchy.php:213-214 | `markById`'s `$className.'_'.$id` names the key of the class the class name names, and no key when it names none |

## Left out

- `getChildrenAsUL`, `partialTreeAsUL` (lines 275-309, 457-470): HTML building through `eval`. `partialTreeAsUL` also reads undefined variables.
- `Children()` (lines 505-518): it depends on `canView` permission checks and a cached list.
- `getParent` (lines 87-89) is the `Language()` lookup, `Store.LanguageStep`; it has no contract of its own.
- `AllChildren`, `AllChildrenIncludingDeleted` and `doAllChildrenIncludingDeleted` are `stageChildren` with the hooks applied. The `augmentStageChildren` and `augmentAllChildrenIncludingDeleted` hooks are taken as the identity.
- The `$context`, `$childrenMethod` and `$numChildrenMethod` parameters are fixed to their defaults. So the `user_error` path for a missing children method cannot arise.
- The `_t` message text is dropped. `ValidationResult` becomes an optional error code.
- The `Language()` and `Folder()` relations answer nothing for an unset or dangling ID. The ORM's empty placeholder object is not modelled. The SnippetLanguage and SnippetFolder classes are not part of this model.
- `Folders()` of a language is taken to be the folders with that LanguageID and FolderID 0. `Folders()` of a folder is the folders with that FolderID.
- `getExtensionInstance('Hierarchy')` / `setOwner` in `loadDescendantIDListInto` are modelled as a direct recursive call on the child.
- PHP's loose `==` is modelled as plain equality on a single value type. The exception is the falsy names `""` and `"0"`, which are kept.
- `each()`'s position in the array is modelled as an index into the growing queue.
- Termination:
  - `Paths.GetAncestors`, `Paths.ParentStack` and `Validator.Validate` require their upward walk to end within as many hops as there are rows. In the source they loop forever on a `LanguageID` cycle, and `parentStack` also spins on a FolderID that names no folder.
  - `Navigation.NaturalNext` requires the search to finish within a nesting depth of twice the number of rows plus two.
- Navigation.NaturalNext: compares the root bound with the class name as PHP 8 does. Under PHP 5 and 7, the integer root 0 equals every class name, so the default root never lets the search climb. That reading is not modelled.
- Engine.MarkPartialTree: does not state that every processed node is expanded. A processed node that is later re-queued as a child with children is reset to unexpanded, so the contract states "expanded unless re-queued later that way".
- Engine.MarkPartialTree: states sibling order only one step at a time, through `Engine.MarkChildrenOrder`. For the whole queue it states which keys each prefix holds, not their order.
- Engine.MarkPartialTree: does not state that a larger minimum never yields a smaller count. It also does not state that two runs on the same store give the same queue.
- Engine.MinCount: the number a numeric string reads as is carried with it, not parsed from the text. Float infinities and NaN are not modelled.
- Navigation.NextChildren: lists rows in storage order, while `naturalNext`'s query orders them by Sort. The two agree when `Store.SortedBySort` holds; rows of equal Sort may then still come in either order.
- Descendants.LoadIntoSound: does not state that the start node's ID is never listed. A folder that is its own parent folder lists itself. A language with a top-level folder of the same ID lists that ID. The source does the same on such stores.
- Engine.MarkPartialTree: its concrete breadth-first example (a root with five children of three children each) is not worked out.

## Findings

| source | as written | input that shows it | evidently intended | confidence | as-written member | corrected member |
|---|---|---|---|---|---|---|
| code/extensions/SnippetHierarchy.php:489-492 | a child is skipped, with its whole subtree, when its bare ID is already in the list, even if the ID listed belongs to a node of another class | language 1 holds folders 2 and 5; snippet 5 is in folder 2 and snippet 9 in folder 5; the list is [2, 5], folder 5 is skipped because snippet 5's ID is listed, and snippet 9 is never reached | skip a child only when that same node (class and ID) was already visited, so every descendant is listed | medium, not executed | DescendantsExample.BareIdSkipsSubtree | Descendants.ByKeyHolds |
