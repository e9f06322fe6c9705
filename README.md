# A verified model of the deobfuscator's core passes

The deobfuscator parses obfuscated JavaScript into a Shift syntax tree and runs a
fixed schedule of modifications over it. This project models four parts of it in Dafny:

- the tree-editing helper that replaces, removes or inserts a node in its parent
  (`src/helpers/traversalHelper.ts`);
- the cache-function remover (`src/modifications/caches/`). It finds
  self-overriding "cache" functions of the form
  `function f() { f = function () { … }; return f(); }`, records aliases of them,
  and unrolls each one into a plain `let` binding;
- the constant unpackers (`src/modifications/unpacker/`). The current one works with
  constant kinds (array, value, object). The older one, `unpacker.ts`, keeps separate
  array and object tables. Both inline reads of literal constants and then remove the
  declarations that are no longer needed;
- the schedule in `src/index.ts` that orders the modifications from the
  configuration in `src/config.ts`.

The syntax tree is a heap of node records, `map<NodeId, NodeRec>`, with a `next` counter
for fresh nodes. Each record has a kind, an ordered list of named child slots and
scalar attributes. A slot holds one optional child or a list of optional children;
list holes are array elisions.

The generic traversal helper is not part of this model. It becomes a `Walker`
parameter that lists the enter and leave events of a traversal from a given root.
The events are fixed when the traversal starts.

Nested lexical scopes are stored in an arena, a sequence of scope records. Each
record points to its parent by index. Scope lookup walks the chain of parents, as
`findVariable` and `findCacheFunction` do.

Every traversal of a pass is a left fold over its events of a step that may fail
(`Base.Fold`). The first exception ends the fold. The passes are also written as
classes whose methods update fields and the tree in place. Each method is proved to
end in exactly the state, or with exactly the exception, given by the fold.

## Model

| member | source | states |
|---|---|---|
| ScopeTree.Register | src/modifications/unpacker/scope.ts:16-25 | a new scope is appended with empty tables; the parent's `children` map now sends the scope's node to it; every other scope is unchanged; a well-formed arena stays well-formed |
| ScopeTree.LeaveCursor | src/modifications/unpacker/constantUnpacker.ts:67-71 | the cursor moves only when the node left is the current scope's own node, and then (in a well-formed arena) exactly one step up its chain of enclosing scopes |
| ScopeTree.Chain | src/modifications/unpacker/scope.ts:39-45 | the chain of scopes searched by a lookup starts at the scope itself and only visits that scope and its ancestors |
| ScopeTree.FindIsNearest | src/modifications/unpacker/scope.ts:39-45 | lookup returns the binding of the nearest scope on the parent chain that maps the name |
| ScopeTree.FindNoneIffUnbound | src/modifications/unpacker/scope.ts:39-45 | lookup finds nothing exactly when no scope on the chain maps the name |
| ScopeTree.FindOnlyReadsChain | src/modifications/unpacker/scope.ts:39-45 | lookup depends only on the parent links and tables of the scopes on the chain |
| ScopeTree.BindingInvisibleOffChain | src/modifications/unpacker/scope.ts:39-45 | binding a name in a scope that is not an ancestor does not change what the lookup finds |
| ScopeTree.ParentNotOnChildChain | src/modifications/unpacker/scope.ts:16-25 | a scope created later is never an ancestor of an earlier one |
| ScopeTree.Preorder | src/modifications/unpacker/scope.ts:62-72 | the removal visit starts at the scope and visits only it and later scopes |
| ScopeTree.PreorderChildren | src/modifications/unpacker/scope.ts:69-71 | visiting the children in map order reaches only scopes created after the parent |
| ScopeTree.PreorderChildrenPrefix | src/modifications/unpacker/scope.ts:69-71 | the visit of the first children is a prefix of the visit of all children |
| ScopeTree.ChildSubtreeIncluded | src/modifications/unpacker/scope.ts:69-71 | every scope below a listed child is visited by the children loop |
| ScopeTree.SubtreeOfChild | src/modifications/unpacker/scope.ts:62-72 | every scope below a child is visited from the parent |
| UnpackerScope.BindAlias | src/modifications/unpacker/scope.ts:52-57 | raises "already mapped" exactly when the constant's own name (not the alias) is bound in this scope; otherwise binds the alias to the constant, changes no other name or scope and keeps the insertion order |
| UnpackerScope.BindVariable | src/modifications/unpacker/scope.ts:31-33 | fails exactly when the name is already bound here; on success a lookup from this scope finds the constant |
| UnpackerScope.BindVariableTwiceFails | src/modifications/unpacker/scope.ts:52-55 | a second constant with the same name in the same scope raises "already mapped" |
| UnpackerScope.AliasRebindsBoundAlias | src/modifications/unpacker/scope.ts:52-57 | an alias that is already bound is silently rebound, because only the constant's own name is checked |
| UnpackerScope.DeadHereMembers | src/modifications/unpacker/scope.ts:63-67 | a constant is removed in a scope exactly when some entry of the scope's table maps to it and its override count is zero |
| UnpackerScope.DeadInMembers | src/modifications/unpacker/scope.ts:62-72 | over a list of scopes, the removed constants are those removed in one of them |
| UnpackerScope.RemovalTargets | src/modifications/unpacker/scope.ts:62-72 | the removal from a scope removes exactly the unused constants bound in that scope or any scope below it |
| UnpackerScope.RemovalOrderSplit | src/modifications/unpacker/scope.ts:62-72 | the scope's own constants are removed first, in table order, then those of each child, in map order |
| UnpackerScope.ChildrenStep | src/modifications/unpacker/scope.ts:69-71 | each step of the children loop adds the whole removal of that child, or nothing if the key is missing |
| UnpackerScope.RemovalKeepsOthers | src/modifications/unpacker/scope.ts:62-72 | removing declarators never detaches a node that is not one of them |
| UnpackerScope.UsedConstantsStay | src/modifications/unpacker/scope.ts:63-67 | a constant whose override count is positive keeps its declaration, when no other constant shares its declarator (`ConstantUnpacker.RunKeepsUsedDeclarators` discharges this) |
| UnpackerScope.RemoveStepDetaches | src/modifications/unpacker/scope.ts:64-66 | removing one constant whose parent holds its declarator once, in a list, detaches it from that parent |
| UnpackerScope.RemovalKeepsDetached | src/modifications/unpacker/scope.ts:62-72 | later removals never re-attach a detached declarator |
| UnpackerScope.RemoveSpecDetaches | src/modifications/unpacker/scope.ts:62-72 | a constant at its turn in the removal order is unused, and at the end its declarator is gone from its recorded parent |
| UnpackerScope.Scopes.constructor | src/modifications/unpacker/scope.ts:16-25 | starts with the global scope only and no constants |
| UnpackerScope.Scopes.NewScope | src/modifications/unpacker/scope.ts:16-25 | the arena becomes `Register` of the old arena with the new scope under its parent |
| UnpackerScope.Scopes.AddAlias | src/modifications/unpacker/scope.ts:52-57 | ends in the state `BindAlias` gives, or reports its error and changes nothing |
| UnpackerScope.Scopes.AddVariable | src/modifications/unpacker/scope.ts:31-33 | ends in the state `BindVariable` gives, or reports its error and changes nothing |
| UnpackerScope.Scopes.BumpOverride | src/modifications/unpacker/constant.ts:74-76 | adds one to one constant's override count and changes nothing else |
| UnpackerScope.Scopes.RemoveDeclarator | src/modifications/unpacker/scope.ts:64-66 | removes one unused constant's declarator from its parent, as the removal step specifies |
| UnpackerScope.Scopes.RemoveHere | src/modifications/unpacker/scope.ts:63-67 | the tree becomes the fold of declarator removals over this scope's unused constants |
| UnpackerScope.Scopes.RemoveChildren | src/modifications/unpacker/scope.ts:69-71 | the tree becomes the fold of removals over every child's subtree, in map order |
| UnpackerScope.Scopes.RemoveVariableDeclaration | src/modifications/unpacker/scope.ts:62-72 | the tree becomes the removal specification of the scope and its subtree; node keys are kept |
| CacheScope.Bind | src/modifications/caches/scope.ts:42-53 | sets the name in one scope (overwriting), keeps every other name and scope; a lookup from that scope finds it |
| CacheScope.BindOverwrites | src/modifications/caches/scope.ts:42-53 | binding a name twice keeps the later function |
| CacheScope.BindKeepsOtherNames | src/modifications/caches/scope.ts:42-53 | binding one name never changes the lookup of another name from any scope |
| CacheScope.NameLookupAgrees | src/modifications/caches/scope.ts:30-36 | two arenas with the same links and the same bindings for a name agree on its lookup |
| CacheScope.ChildBindingInvisible | src/modifications/caches/scope.ts:30-36 | a binding made in an inner scope is not visible from an enclosing scope |
| CacheScope.CacheScopes.constructor | src/modifications/caches/scope.ts:15-24 | starts with the global scope only |
| CacheScope.CacheScopes.NewScope | src/modifications/caches/scope.ts:15-24 | the arena becomes `Register` of the old arena |
| CacheScope.CacheScopes.AddCacheFunction | src/modifications/caches/scope.ts:42-44 | the arena becomes `Bind` under the function's name |
| CacheScope.CacheScopes.AddAlias | src/modifications/caches/scope.ts:51-53 | the arena becomes `Bind` under the alias |
| TraversalHelper.IndexOf | src/helpers/traversalHelper.ts:35 | `indexOf`: the position of the first occurrence of the node in the list, or -1 exactly when it does not occur |
| TraversalHelper.EditSlot | src/helpers/traversalHelper.ts:24-46 | a single-node property holding the target takes the replacement, or fails when given a list; a property not holding it is unchanged; a list property stays a list and is unchanged when the target is not in it |
| TraversalHelper.EditFields | src/helpers/traversalHelper.ts:24-48 | succeeds exactly when no single-node property holding the target is given a list; then every property is edited pointwise, in order |
| TraversalHelper.SpliceAtFirstIndex | src/helpers/traversalHelper.ts:33-46 | in a list, the splice happens at the first occurrence of the target (after it when inserting after), deleting up to `deleteCount` nodes and inserting the replacement |
| TraversalHelper.RemoveDeletesTarget | src/helpers/traversalHelper.ts:58-60 | removal deletes exactly the first occurrence of the node from the list and keeps every other element |
| TraversalHelper.InsertKeepsAll | src/helpers/traversalHelper.ts:69-71 | insertion keeps every element (as a multiset), puts the new nodes next to the target, before or after it, and keeps the target |
| TraversalHelper.EditFieldsFirstError | src/helpers/traversalHelper.ts:26-31 | the exception names the first property, in property order, that cannot take a list |
| TraversalHelper.ReplaceIgnoresOthers | src/helpers/traversalHelper.ts:21-23 | a traversal that never enters the target leaves the tree unchanged |
| TraversalHelper.ReplaceAtSingleVisit | src/helpers/traversalHelper.ts:13-51 | when the target is entered once, the result is the edit of that parent's properties |
| TraversalHelper.EditFieldsRaises | src/helpers/traversalHelper.ts:27-31 | editing properties raises nothing but the "array into scalar" error |
| TraversalHelper.ReplaceRaises | src/helpers/traversalHelper.ts:13-51 | `replaceNode` raises nothing but that error or the TypeError of a null parent (the target entered as the traversal root) |
| TraversalHelper.ReplaceKeepsKeys | src/helpers/traversalHelper.ts:13-51 | a replacement never adds or drops a node record |
| TraversalHelper.ReplaceKeepsOtherInSlot | src/helpers/traversalHelper.ts:24-46 | removing one node keeps every other child of the property |
| TraversalHelper.ReplaceKeepsOtherInParent | src/helpers/traversalHelper.ts:24-48 | removing one node keeps every other child of every node |
| TraversalHelper.ReplaceKeepsOtherChildren | src/helpers/traversalHelper.ts:58-60 | `removeNode` never detaches any node other than its target |
| TraversalHelper.RemoveDetaches | src/helpers/traversalHelper.ts:58-60 | when the parent holds the target once, in a list, and the traversal enters it once, `removeNode` succeeds and the parent no longer holds it |
| TraversalHelper.RemoveNeverAttaches | src/helpers/traversalHelper.ts:58-60 | a removal never makes a node a child of a parent that did not hold it |
| TraversalHelper.ReplaceKeepsOtherScalar | src/helpers/traversalHelper.ts:24-32 | a single-node property holding a node other than the target keeps it, and no node changes kind |
| TraversalHelper.Tree.constructor | src/helpers/traversalHelper.ts:13-51 | the tree starts with the given node records and fresh-id counter |
| TraversalHelper.Tree.Alloc | src/modifications/caches/cacheFunction.ts:50-60 | a new node record gets a fresh id; every other record is kept |
| TraversalHelper.Tree.EditParent | src/helpers/traversalHelper.ts:24-48 | the parent's properties are edited in place exactly as the edit specifies, or the error is raised and the tree is unchanged |
| TraversalHelper.Tree.ReplaceNode | src/helpers/traversalHelper.ts:13-51 | the tree ends exactly as the traversal specification gives, or with its exception; node ids are kept |
| TraversalHelper.Tree.RemoveNode | src/helpers/traversalHelper.ts:58-60 | a replacement by nothing with delete count one |
| TraversalHelper.Tree.InsertNode | src/helpers/traversalHelper.ts:69-71 | a replacement with delete count zero, before or after the target |
| Constants.Id | src/modifications/unpacker/array.ts:6 | the kind identifier is "array" exactly for array constants |
| Constants.NodesMap.constructor | src/modifications/unpacker/constant.ts:5 | the registry starts empty |
| Constants.NodesMap.NodesSet | src/modifications/unpacker/constant.ts:37-41 | returns the catalogued set for the key, creating an empty one on first use |
| Constants.NodesMap.Add | src/modifications/unpacker/array.ts:17 | adds the declarator to the set of its key |
| Constants.DeclaratorOf | src/modifications/unpacker/constant.ts:43-56 | a declarator is offered exactly when it binds a plain identifier, has an initialiser and is not yet catalogued; it yields that name and initialiser |
| Constants.GetReplacement | src/modifications/unpacker/array.ts:23-28 | an array constant yields the element at an in-range integer index when it is present and not a spread; a value constant always yields its literal; an object entry yields nothing |
| Constants.SimpleAccess | src/modifications/unpacker/constant.ts:64-77 | an unbound name changes nothing; a constant without a replacement gets its override count raised by one and nothing else changes; otherwise the access is replaced in its parent |
| Constants.IndexedAccessToValueConstant | src/modifications/unpacker/constant.ts:67-73 | an indexed access whose name resolves to a value constant is replaced by that literal, whatever the index |
| Constants.BareUseOfArrayCounts | src/modifications/unpacker/value.ts:27-33 | a bare use of a name bound to an array constant counts as an override and is not replaced |
| ConstantKinds.Candidate | src/modifications/unpacker/array.ts:8-21 | an array initialiser qualifies exactly when every element is a hole or a literal; a value initialiser exactly when it is a literal (value.ts:9-21) |
| ConstantKinds.Declare | src/modifications/unpacker/array.ts:8-21 | a declarator is taken exactly when it is offered and qualifies; then it is catalogued, a new constant is appended and bound in the current scope (the lookup finds it); the only error is a name already bound there |
| ConstantKinds.DeclareOnce | src/modifications/unpacker/array.ts:14 | a declarator taken once is refused by every kind afterwards |
| ConstantKinds.AccessOf | src/modifications/unpacker/array.ts:30-38 | an array access is exactly `name[numeric literal]`, keyed by the number; a value access (value.ts:27-33) is exactly a bare identifier |
| ConstantKinds.Access | src/modifications/unpacker/array.ts:30-38 | a node that is not an access of the kind changes nothing; an access is resolved by the shared rewrite |
| ConstantKinds.ArrayAccessReplaced | src/modifications/unpacker/array.ts:23-38 | `a[i]` with `a` bound to an array whose element `i` is a literal is replaced by that literal |
| ConstantKinds.AddDeclarationToScope | src/modifications/unpacker/array.ts:8-21 | updates the scopes and the registry exactly as `Declare` specifies, or reports its error |
| ConstantKinds.ReplaceSimpleAccess | src/modifications/unpacker/array.ts:30-38 | updates the tree and the constants exactly as `Access` specifies, or reports its error; scopes and node ids are kept |
| ConstantUnpacker.KindList | src/modifications/unpacker/constantUnpacker.ts:26-32 | each kind is enabled exactly when its flag is set, in the order array, object, value |
| ConstantUnpacker.DeclareFirst | src/modifications/unpacker/constantUnpacker.ts:61-65 | offering a node to the kinds keeps the current scope and never lowers the found flag; the object entry is skipped (corrected, see Findings) |
| ConstantUnpacker.AccessAll | src/modifications/unpacker/constantUnpacker.ts:89-91 | offering an access to the kinds keeps the current scope; the object entry is skipped (corrected, see Findings) |
| ConstantUnpacker.DeclareFirstCatalogues | src/modifications/unpacker/constantUnpacker.ts:61-65 | a node either changes nothing or is newly catalogued and raises the found flag |
| ConstantUnpacker.DeclareFirstStopsAtFirst | src/modifications/unpacker/constantUnpacker.ts:61-63 | the first kind that takes the node wins; later kinds are not offered it |
| ConstantUnpacker.DeclareFirstRefused | src/modifications/unpacker/constantUnpacker.ts:61-65 | a node changes nothing exactly when every enabled kind refuses it |
| ConstantUnpacker.DeclareFirstAt | src/modifications/unpacker/constantUnpacker.ts:61-63 | one step of `some`: an error stops, a match stops with the flag up, a refusal moves to the next kind |
| ConstantUnpacker.AccessAllOffersEveryKind | src/modifications/unpacker/constantUnpacker.ts:89-91 | every kind is offered the access in turn, because `replaceSimpleAccess` returns nothing and `some` never stops early |
| ConstantUnpacker.AccessAllKeepsKeys | src/modifications/unpacker/constantUnpacker.ts:89-91 | rewriting one node keeps the node ids |
| ConstantUnpacker.DiscoverBlockRoundTrip | src/modifications/unpacker/constantUnpacker.ts:57-72 | entering a block or function body creates a child scope, registers it under the current scope and moves into it; leaving it returns to the parent |
| ConstantUnpacker.RewriteBlockRoundTrip | src/modifications/unpacker/constantUnpacker.ts:84-99 | in the rewrite, entering a block moves to its registered child scope and leaving it returns |
| ConstantUnpacker.DiscoverFindsNew | src/modifications/unpacker/constantUnpacker.ts:52-75 | the catalogue only grows, by nodes of the tree, and the result is true exactly when it grew |
| ConstantUnpacker.DeclareFirstKeepsBindings | src/modifications/unpacker/constantUnpacker.ts:61-65 | declaring never unbinds or rebinds a name of an existing scope |
| ConstantUnpacker.DiscoverKeepsBindings | src/modifications/unpacker/constantUnpacker.ts:52-75 | a discovery traversal keeps every scope and binding found earlier |
| ConstantUnpacker.RewriteKeepsKeys | src/modifications/unpacker/constantUnpacker.ts:80-100 | the rewrite traversal keeps the node ids |
| ConstantUnpacker.Round | src/modifications/unpacker/constantUnpacker.ts:39-41 | a round that continues strictly lowers the number of uncatalogued nodes, so the loop ends |
| ConstantUnpacker.QuietIfNothingFound | src/modifications/unpacker/constantUnpacker.ts:52-75 | a discovery that reports false met no node that any kind would take, and left the catalogue unchanged |
| ConstantUnpacker.NothingFoundIfQuiet | src/modifications/unpacker/constantUnpacker.ts:52-75 | when no node would be taken, discovery succeeds, reports false and leaves the catalogue unchanged |
| ConstantUnpacker.DiscoverOwnDeclarators | src/modifications/unpacker/constantUnpacker.ts:52-75 | discovery keeps every constant's declarator its own and catalogued |
| ConstantUnpacker.RewriteKeepsDeclarators | src/modifications/unpacker/constantUnpacker.ts:80-100 | the rewrite changes the constants' counters only |
| ConstantUnpacker.RoundsOwnDeclarators | src/modifications/unpacker/constantUnpacker.ts:39-41 | every round keeps each declarator its own |
| ConstantUnpacker.RunKeepsUsedDeclarators | src/modifications/unpacker/constantUnpacker.ts:38-46 | from a fresh pass, `execute` keeps the declarator of every used constant wherever it was held when the rounds ended |
| ConstantUnpacker.RoundsEndQuiet | src/modifications/unpacker/constantUnpacker.ts:39-41 | when the loop ends, one more discovery would find nothing: a fixed point |
| ConstantUnpacker.ObjectEntryRaisesOnScript | src/modifications/unpacker/constantUnpacker.ts:29-30 | with `unpackObjects` set, discovery as written raises a TypeError at the script root, the first node entered, because the object entry has no `addDeclarationToScope` |
| ConstantUnpacker.DeclareFirstSkipsObject | src/modifications/unpacker/constantUnpacker.ts:29-30 | the corrected object entry is never offered a declaration |
| ConstantUnpacker.AccessAllSkipsObject | src/modifications/unpacker/constantUnpacker.ts:29-30 | the corrected object entry never rewrites an access |
| ConstantUnpacker.ObjectFlagInert | src/modifications/unpacker/constantUnpacker.ts:29-30 | corrected: the `unpackObjects` flag changes neither declaration nor rewriting |
| ConstantUnpacker.Unpacker.constructor | src/modifications/unpacker/constantUnpacker.ts:22-33 | starts with the global scope only, no constants, and the kind list of the configuration |
| ConstantUnpacker.Unpacker.OfferDeclaration | src/modifications/unpacker/constantUnpacker.ts:61-65 | scopes, constants, registry and flag end as `DeclareFirst` gives, or its error is reported |
| ConstantUnpacker.Unpacker.OfferAccess | src/modifications/unpacker/constantUnpacker.ts:89-91 | tree and constants end as `AccessAll` gives, or its error is reported; scopes are kept |
| ConstantUnpacker.Unpacker.DiscoverEvent | src/modifications/unpacker/constantUnpacker.ts:57-72 | one enter or leave of the discovery traversal, as the discovery step gives |
| ConstantUnpacker.Unpacker.FindVariableDeclarator | src/modifications/unpacker/constantUnpacker.ts:52-75 | the state and the returned flag are those of the discovery fold over the whole traversal |
| ConstantUnpacker.Unpacker.RewriteEvent | src/modifications/unpacker/constantUnpacker.ts:84-98 | one enter or leave of the rewrite traversal, as the rewrite step gives |
| ConstantUnpacker.Unpacker.UnpackConstants | src/modifications/unpacker/constantUnpacker.ts:80-100 | the tree and constants are those of the rewrite fold over the whole traversal |
| ConstantUnpacker.Unpacker.RunRound | src/modifications/unpacker/constantUnpacker.ts:39-41 | one iteration of the loop, as `Round` gives, whose progress measure bounds the loop |
| ConstantUnpacker.Unpacker.Execute | src/modifications/unpacker/constantUnpacker.ts:38-46 | the rounds until discovery finds nothing, then the removal when `shouldRemove` is set; ends as `Run` gives or with its exception; the object entry is skipped (corrected, see Findings) |
| LegacyUnpacker.AddEntry | src/modifications/unpacker/unpacker.ts:134 | the array or object table of one scope sends the name to the constant (overwriting); other names, tables and scopes are kept; a lookup from that scope finds it |
| LegacyUnpacker.ArrayDeclaration | src/modifications/unpacker/unpacker.ts:124-139 | a declarator qualifies exactly when arrays are enabled, it binds an identifier to an array of holes and literals and is not yet recorded; it yields the name and the element list |
| LegacyUnpacker.ObjectDeclaration | src/modifications/unpacker/unpacker.ts:147-162 | a declarator qualifies exactly when objects are enabled, it binds an identifier to an object of data properties only and is not yet recorded |
| LegacyUnpacker.DeclareLegacy | src/modifications/unpacker/unpacker.ts:56-61 | the array rule is tried first and the object rule only when it refuses; the taken declarator is recorded, a constant is appended and bound, and the flag goes up; a refused node changes nothing |
| LegacyUnpacker.DeclareLegacyOnce | src/modifications/unpacker/unpacker.ts:132 | a recorded declarator is never taken again |
| LegacyUnpacker.Count | src/modifications/unpacker/unpacker.ts:176 | raises one constant's replace count by one and changes nothing else |
| LegacyUnpacker.ReplaceCounted | src/modifications/unpacker/unpacker.ts:176-177 | counting happens before the replacement, and a replacement without a parent fails; on success node ids and scope are kept |
| LegacyUnpacker.Element | src/modifications/unpacker/unpacker.ts:172-175 | an element is found exactly when the key is an in-range integer index and the slot is not a hole |
| LegacyUnpacker.ArrayAccess | src/modifications/unpacker/unpacker.ts:164-181 | an array access keeps node ids, the scope and the number of constants |
| LegacyUnpacker.ArrayTarget | src/modifications/unpacker/unpacker.ts:170-175 | a target found for an array access is an existing constant |
| LegacyUnpacker.ObjectKey | src/modifications/unpacker/unpacker.ts:184-198 | the key is read exactly from `o["literal string"]` or `o.name` with `o` an identifier |
| LegacyUnpacker.FirstKeyed | src/modifications/unpacker/unpacker.ts:204-206 | `find`: the first property, from a position, whose static name is the key, or none when no property has it |
| LegacyUnpacker.ObjectAccess | src/modifications/unpacker/unpacker.ts:183-212 | an object access keeps node ids, the scope and the number of constants |
| LegacyUnpacker.ObjectTarget | src/modifications/unpacker/unpacker.ts:200-208 | a target found for an object access is an existing constant |
| LegacyUnpacker.ArrayAccessHit | src/modifications/unpacker/unpacker.ts:164-181 | an access `a[i]` whose array has an element at `i` is replaced by it and the array's replace count rises by one |
| LegacyUnpacker.ArrayAccessMiss | src/modifications/unpacker/unpacker.ts:164-181 | an access with no such element changes nothing |
| LegacyUnpacker.ObjectAccessHit | src/modifications/unpacker/unpacker.ts:183-212 | an access whose first matching property holds a literal is replaced by that literal and counted |
| LegacyUnpacker.ObjectAccessMiss | src/modifications/unpacker/unpacker.ts:183-212 | any other access changes nothing |
| LegacyUnpacker.DiscoverLegacyFindsNew | src/modifications/unpacker/unpacker.ts:47-71 | both record sets only grow, by nodes of the tree, and the result is true exactly when one grew |
| LegacyUnpacker.RewriteLegacyKeepsKeys | src/modifications/unpacker/unpacker.ts:76-95 | the rewrite traversal keeps the node ids |
| LegacyUnpacker.RoundLegacy | src/modifications/unpacker/unpacker.ts:34-36 | a round that continues strictly lowers the number of unrecorded nodes, so the loop ends |
| LegacyUnpacker.ReplacedHereMembers | src/modifications/unpacker/unpacker.ts:102-111 | one table of a scope removes exactly its constants whose replace count is positive |
| LegacyUnpacker.ReplacedInMembers | src/modifications/unpacker/unpacker.ts:101-116 | over a list of scopes, the removed constants are those removed in one of them |
| LegacyUnpacker.LegacyRemovalTargets | src/modifications/unpacker/unpacker.ts:101-116 | the removal deletes exactly the constants with a positive replace count bound in the scope or below it, the opposite of the constant unpacker's rule |
| LegacyUnpacker.UnreplacedStay | src/modifications/unpacker/unpacker.ts:103-109 | a constant never replaced keeps its declaration, when no other constant shares its declarator (`LegacyUnpacker.RunLegacyKeepsUnreplaced` discharges this) |
| LegacyUnpacker.LegacyRemoveSpecDetaches | src/modifications/unpacker/unpacker.ts:101-116 | a constant at its turn in the removal order was replaced, and at the end its declarator is gone from its recorded parent |
| LegacyUnpacker.DiscoverLegacyOwn | src/modifications/unpacker/unpacker.ts:124-162 | discovery keeps every constant's declarator its own: an array constant's is recorded as an array and initialised by an array literal, an object constant's likewise as an object |
| LegacyUnpacker.ReplaceCountedOwn | src/modifications/unpacker/unpacker.ts:176-177 | replacing an access keeps every declarator's initialiser and its kind, and counting moves no declarator |
| LegacyUnpacker.RewriteLegacyOwn | src/modifications/unpacker/unpacker.ts:76-95 | the rewrite keeps that invariant |
| LegacyUnpacker.RoundsLegacyOwn | src/modifications/unpacker/unpacker.ts:34-36 | every round keeps it |
| LegacyUnpacker.RunLegacyKeepsUnreplaced | src/modifications/unpacker/unpacker.ts:33-41 | from a fresh pass, `execute` keeps the declarator of every constant never replaced wherever it was held when the rounds ended |
| LegacyUnpacker.LegacyRemovalOrderSplit | src/modifications/unpacker/unpacker.ts:101-116 | arrays first, then objects, of the scope itself, then each child in map order |
| LegacyUnpacker.LegacyChildrenStep | src/modifications/unpacker/unpacker.ts:113-115 | each step of the children loop adds the whole removal of that child |
| LegacyUnpacker.LegacyPass.constructor | src/modifications/unpacker/unpacker.ts:22-28 | starts with the global scope only, no constants and empty record sets |
| LegacyUnpacker.LegacyPass.AddLiteralArrayDeclaration | src/modifications/unpacker/unpacker.ts:124-139 | returns whether the declarator qualifies and, if so, appends and binds the array constant and records the node; otherwise changes nothing |
| LegacyUnpacker.LegacyPass.AddLiteralObjectDeclaration | src/modifications/unpacker/unpacker.ts:147-162 | the same for object constants |
| LegacyUnpacker.LegacyPass.DiscoverEvent | src/modifications/unpacker/unpacker.ts:53-67 | one enter or leave of the discovery traversal, as the discovery step gives |
| LegacyUnpacker.LegacyPass.FindVariableDeclarator | src/modifications/unpacker/unpacker.ts:47-71 | discovery never fails; the state and the flag are those of the discovery fold |
| LegacyUnpacker.LegacyPass.Replace | src/modifications/unpacker/unpacker.ts:176-177 | counts, then replaces, exactly as `ReplaceCounted` gives |
| LegacyUnpacker.LegacyPass.ReplaceSimpleArrayAccess | src/modifications/unpacker/unpacker.ts:164-181 | tree and constants end as `ArrayAccess` gives, or with its exception |
| LegacyUnpacker.LegacyPass.ReplaceSimpleObjectAccess | src/modifications/unpacker/unpacker.ts:183-212 | tree and constants end as `ObjectAccess` gives, or with its exception |
| LegacyUnpacker.LegacyPass.RewriteEvent | src/modifications/unpacker/unpacker.ts:81-93 | one enter or leave of the rewrite traversal: the array rule, then the object rule on the node |
| LegacyUnpacker.LegacyPass.UnpackObjectsArrays | src/modifications/unpacker/unpacker.ts:76-95 | the tree and constants are those of the rewrite fold over the whole traversal |
| LegacyUnpacker.LegacyPass.RemoveDeclarator | src/modifications/unpacker/unpacker.ts:104 | removes one declarator as the removal step gives |
| LegacyUnpacker.LegacyPass.RemoveTable | src/modifications/unpacker/unpacker.ts:102-111 | the fold of removals over one table's replaced constants, in table order |
| LegacyUnpacker.LegacyPass.RemoveChildren | src/modifications/unpacker/unpacker.ts:113-115 | the fold of removals over every child's subtree, in map order |
| LegacyUnpacker.LegacyPass.RemoveVariableDeclaration | src/modifications/unpacker/unpacker.ts:101-116 | the tree becomes the removal specification of the scope and its subtree |
| LegacyUnpacker.LegacyPass.RunRound | src/modifications/unpacker/unpacker.ts:34-36 | one iteration of the loop, as `RoundLegacy` gives |
| LegacyUnpacker.LegacyPass.Execute | src/modifications/unpacker/unpacker.ts:33-41 | the rounds until discovery finds nothing, then the removal when `shouldRemove` is set |
| CacheFunction.OverridingFunction | src/modifications/caches/cacheFunction.ts:46-56 | succeeds exactly when the override statement holds an assignment whose right side is a function expression, and yields that function; raises the "not FunctionExpression" error exactly when the statement's expression is another kind, or its right side is another kind |
| CacheFunction.LetDeclares | src/modifications/caches/cacheFunction.ts:50-60 | the four new nodes form `let name = init;` and every old node is kept |
| CacheFunction.NotFunctionExactly | src/modifications/caches/cacheFunction.ts:46-48 | unrolling raises the shape error exactly when the override check does; any later error is one `replaceNode` raises |
| CacheFunction.RemoveReturnsRaises | src/modifications/caches/cacheFunction.ts:61 | removing the self-calling returns raises only what `replaceNode` raises |
| CacheFunction.ReturnsKeepOthers | src/modifications/caches/cacheFunction.ts:61 | removing the returns keeps every other child in place |
| CacheFunction.UnrolledKeepsOthers | src/modifications/caches/cacheFunction.ts:45-63 | unrolling detaches only the override statement, the returns and the function itself |
| CacheFunction.SpliceBodyInList | src/modifications/caches/cacheFunction.ts:62 | a function declaration in a statement list is replaced, at its position, by the statements of its body |
| CacheFunction.SpliceBodyIntoInitRaises | src/modifications/caches/cacheFunction.ts:62 | a function expression that initialises a `var` is always refused: a list of statements cannot go into the single-node `init` property, so the run raises |
| CacheFunction.AllocLet | src/modifications/caches/cacheFunction.ts:50-60 | allocates exactly the four nodes of the `let` statement and returns the statement |
| CacheFunction.RemoveReturnsOn | src/modifications/caches/cacheFunction.ts:61 | the tree ends as the fold of removals over the returns gives, or with its exception |
| CacheFunction.FinishReplacement | src/modifications/caches/cacheFunction.ts:61-62 | the returns removed, then the body spliced in, as specified |
| CacheFunction.MakeReplacement | src/modifications/caches/cacheFunction.ts:45-63 | the tree and fresh-id counter end as the unrolling specification gives, or with its exception |
| CacheRemover.LastParent | src/modifications/caches/cacheRemover.ts:138-150 | the parent of the last matching node entered, and nothing when no node matches |
| CacheRemover.LastParentSnoc | src/modifications/caches/cacheRemover.ts:140-148 | each match overwrites the remembered statement; other nodes keep it |
| CacheRemover.LastMatchWins | src/modifications/caches/cacheRemover.ts:135-152 | a match followed by no other match decides the result |
| CacheRemover.FirstMismatch | src/modifications/caches/cacheRemover.ts:175-177 | `every` checks the arguments in order up to the first one whose name differs from its parameter's |
| CacheRemover.ArgsForwardedAsWritten | src/modifications/caches/cacheRemover.ts:175-177 | as written: true exactly when every argument has its parameter's name; a TypeError exactly when the first mismatch is a hole, or has no parameter, or its parameter is a hole |
| CacheRemover.ArgsForwarded | src/modifications/caches/cacheRemover.ts:175-177 | corrected: an argument with no parameter is a mismatch rather than an error |
| CacheRemover.ForwardedAgrees | src/modifications/caches/cacheRemover.ts:175-177 | the two agree wherever the code as written does not raise, and the corrected check never raises on calls without holes |
| CacheRemover.SelfCall | src/modifications/caches/cacheRemover.ts:171-177 | corrected: a return is a self-call exactly when it returns a call of the function's own name, with no more arguments than parameters, each named as its parameter |
| CacheRemover.SelfCallAgrees | src/modifications/caches/cacheRemover.ts:171-177 | wherever the test as written answers, the corrected test gives the same answer |
| CacheRemover.SurplusArgumentRaises | src/modifications/caches/cacheRemover.ts:175-177 | for `function f(a) { …; return f(a, a); }` the code as written raises, while the corrected check answers "not a self-call" |
| CacheRemover.SurplusHeapReads | src/modifications/caches/cacheRemover.ts:175-177 | the counterexample tree has one parameter `a` and a call with two arguments |
| CacheRemover.ScanKeepsSound | src/modifications/caches/cacheRemover.ts:163-185 | the collected list only ever holds self-calling returns, and is empty once the scan broke off |
| CacheRemover.SelfReturnsSound | src/modifications/caches/cacheRemover.ts:160-187 | every return the scan yields is a self-calling return statement |
| CacheRemover.ScanKeepsCollected | src/modifications/caches/cacheRemover.ts:163-185 | until the scan breaks off, the collected list only grows at its end |
| CacheRemover.SelfReturnsComplete | src/modifications/caches/cacheRemover.ts:160-187 | conversely, a self-calling return the scan meets outside nested bodies before breaking off is collected: it follows the returns collected before it in the result, unless the scan later breaks off and yields nothing |
| CacheRemover.SkippedEventsInert | src/modifications/caches/cacheRemover.ts:165-167 | inside a skipped nested function body nothing is collected |
| CacheRemover.NestedBodySkipped | src/modifications/caches/cacheRemover.ts:165-167 | a nested function body, entered and left, leaves the scan unchanged |
| CacheRemover.StoppedStays | src/modifications/caches/cacheRemover.ts:182 | after `break` no event changes the scan |
| CacheRemover.MismatchEmpties | src/modifications/caches/cacheRemover.ts:180-183 | one return that is not a self-call empties the list and stops the scan |
| CacheRemover.CandidateOf | src/modifications/caches/cacheRemover.ts:53-62 | a candidate is always a function declaration or a function expression |
| CacheRemover.RecogniseSound | src/modifications/caches/cacheRemover.ts:53-68 | a recognised node is a cache function: a function with an override of its own name and the returns the scan yields |
| CacheRemover.RecogniseComplete | src/modifications/caches/cacheRemover.ts:53-68 | conversely, a candidate whose return scan succeeds is recognised, with its parent, scope, name, override and returns, exactly when it has an override; otherwise it is passed over without error |
| CacheRemover.RecordKeepsAll | src/modifications/caches/cacheRemover.ts:68-74 | recording a cache function keeps every recorded one a cache function whose name is recorded |
| CacheRemover.DiscoverStepKeepsAll | src/modifications/caches/cacheRemover.ts:46-80 | each step of the discovery keeps that invariant |
| CacheRemover.DiscoveredAreCacheFunctions | src/modifications/caches/cacheRemover.ts:41-82 | after discovery every recorded function is a cache function and its name is recorded |
| CacheRemover.DiscoverKeepsFound | src/modifications/caches/cacheRemover.ts:68-71 | discovery only appends to the recorded cache functions |
| CacheRemover.DiscoverFindsCacheFunctions | src/modifications/caches/cacheRemover.ts:41-82 | conversely, every candidate the traversal enters that has an override and a successful return scan is recorded, with its name, parent, override and returns, when discovery succeeds |
| CacheRemover.DiscoverKeepsScopesValid | src/modifications/caches/cacheRemover.ts:41-82 | the scope arena stays a tree and the current scope always exists |
| CacheRemover.AliasResolvesSame | src/modifications/caches/cacheRemover.ts:96-110 | after `var g = f`, the name `g` resolves in that scope to the cache function `f` resolves to |
| CacheRemover.AliasKeepsOthers | src/modifications/caches/cacheRemover.ts:104 | recording an alias detaches only its declarator |
| CacheRemover.AliasDetaches | src/modifications/caches/cacheRemover.ts:96-108 | an alias of a recorded cache function, held once in its parent's list, is removed from that parent |
| CacheRemover.Remover.constructor | src/modifications/caches/cacheRemover.ts:22-27 | starts with the global scope only, no cache functions and no names |
| CacheRemover.Remover.FindOverrideItself | src/modifications/caches/cacheRemover.ts:135-152 | returns the parent of the last assignment of a function expression with as many parameters to the function's own name |
| CacheRemover.Remover.GetItselfReturnStatements | src/modifications/caches/cacheRemover.ts:160-187 | returns the list the return scan specifies, or its TypeError; the scan uses the corrected return test |
| CacheRemover.Remover.RecogniseAt | src/modifications/caches/cacheRemover.ts:53-68 | decides, as `Recognise` specifies, whether the node is a cache function |
| CacheRemover.Remover.DiscoverEvent | src/modifications/caches/cacheRemover.ts:46-80 | one enter or leave of the discovery traversal, as the discovery step gives |
| CacheRemover.Remover.FindCacheFunctions | src/modifications/caches/cacheRemover.ts:41-82 | the scopes, cache functions and names are those of the discovery fold |
| CacheRemover.Remover.AliasEvent | src/modifications/caches/cacheRemover.ts:92-116 | one enter or leave of the alias traversal, as the alias step gives |
| CacheRemover.Remover.FindAliases | src/modifications/caches/cacheRemover.ts:87-118 | the tree, scopes and names are those of the alias fold |
| CacheRemover.Remover.ReplaceCacheFunctionUsages | src/modifications/caches/cacheRemover.ts:123-127 | unrolls every recorded cache function in order; the first exception ends the loop |
| CacheRemover.Remover.Execute | src/modifications/caches/cacheRemover.ts:32-36 | discovery, aliases, then unrolling, ending as `Run` gives or with its exception; the return scan uses the corrected return test |
| Pipeline.SomeUnpackEntry | src/index.ts:61-62 | true exactly when some entry whose key starts with `unpack` is set |
| Pipeline.ToUnpackerIff | src/index.ts:61-62 | the unpacker is scheduled exactly when one of the three unpack flags is set; `shouldRemove` alone does not count |
| Pipeline.BuildModifications | src/index.ts:48-86 | builds exactly the schedule |
| Pipeline.PushRound | src/index.ts:67-74 | one iteration appends the expression simplifier, then the unpacker, each when enabled |
| Pipeline.PushFinishers | src/index.ts:76-86 | appends the dead-branch remover, property simplifier and variable renamer, each when enabled, in that order |
| Pipeline.RepeatAvoids | src/index.ts:64-74 | a modification absent from one round is absent from all rounds |
| Pipeline.OnlyInHead | src/index.ts:51-59 | the function executor, cache remover and proxy remover are never added by the loop or after it |
| Pipeline.FunctionExecutorFirst | src/index.ts:50-51 | the function executor always runs first, and only once |
| Pipeline.CacheRemoverPlace | src/index.ts:53-59 | the cache remover is scheduled exactly when enabled, and then second; the proxy remover, when scheduled, comes right after it and carries the remove flag |
| Pipeline.OnlyInRounds | src/index.ts:64-74 | the expression simplifier and the unpacker are scheduled only by the loop |
| Pipeline.CountAppend | src/index.ts:88-95 | occurrences add up over a concatenation |
| Pipeline.CountRepeat | src/index.ts:67-74 | a modification once in a round occurs once per round |
| Pipeline.CountInRound | src/index.ts:68-73 | a round holds each of its two modifications at most once |
| Pipeline.CountInSchedule | src/index.ts:64-74 | each round modification occurs exactly once per round when enabled, and never otherwise |
| Pipeline.RoundMembers | src/index.ts:68-73 | the simplifier is in a round exactly when enabled; the unpacker exactly when an unpack flag is set |
| Pipeline.RoundsCounted | src/index.ts:64 | the number of rounds is the number of enabled round modifications, and each occurs that many times |
| Pipeline.TwoRoundsInterleave | src/index.ts:64-74 | with both enabled, the schedule alternates simplifier and unpacker twice |
| Pipeline.TailSorted | src/index.ts:76-86 | the finishers come in the fixed order dead branches, properties, renaming |
| Pipeline.FinisherNotBefore | src/index.ts:76-86 | no finisher is added before the loop ends |
| Pipeline.TailOrder | src/index.ts:76-86 | each finisher is scheduled exactly when its option is set, after every other modification and in the fixed order |
| Pipeline.DefaultSchedule | src/index.ts:16-38 | the default configuration schedules the executor, the cache remover, the proxy remover with removal, two rounds of simplifier and unpacker, the dead-branch remover and the property simplifier |
| Pipeline.ExecuteAll | src/index.ts:88-95 | runs the modifications in order; the first exception ends the run |
| Pipeline.Deobfuscate | src/index.ts:46-95 | the run is the schedule run in order |
| Pipeline.RunStartsWithExecutor | src/index.ts:50-51 | every run begins by running the function executor |

## Left out

- The generic `traverse` helper and its visiting order are not part of this model. A traversal is the event list a `Walker` gives. The list is fixed when the traversal starts, so a rewrite does not change which nodes that traversal still visits. `skip` and `break` are modelled on this list.
- Node identity is modelled by ids. A literal that replaces several accesses is shared by all of them, as the JavaScript objects are.
- Parsing, code generation, `CleanupHelper`, beautification, the `verbose` logging and its clock: these are I/O.
- The other modifications (function executor, proxy remover, expression simplifier, dead-branch remover, property simplifier, variable renamer) are names in the schedule. Running one is the `run` parameter of `Pipeline.Deobfuscate`; their own code is not part of this model.
- The random `uuid` a cache function gets is left out. Nothing in the core reads it.
- `Object.entries(config.unpacker)` is modelled on a typed configuration with the four declared keys, in declaration order. Extra keys a caller might add are not modelled.
- Numbers are kept only as integer keys. A fractional, negative-zero or `NaN` index is an `OtherNumber`, which never matches an element. JavaScript's conversion of numbers to property names is not modelled.
- A property missing from a node reads as null, or as an empty list. Shift nodes always carry their declared properties, so this never raises. The only reads of undefined that are modelled as `TypeError` are those the code can reach on well-formed trees: holes in argument and parameter lists, a missing function body, and a null root.
- In the rewrite traversals, a block with no registered child scope raises at the block. In JavaScript, `scope` becomes `undefined` there and the next use of it raises. No state changes between the two points, so the outcome is the same.
- Aliases recorded by the cache remover are bound in scope and their declarators are removed. The calls made through an alias are not rewritten, because the source does not rewrite them either.
- The methods of unpacker/scope.ts that `unpacker.ts` needs (`addArray`, `findArray`, `addObject`, `findObject`, `arrays`, `objects`) are not in that file. They are modelled as one insertion-ordered map per scope, with keys tagged by table.
- `RObject` (object.ts) has no `addDeclarationToScope` or `replaceSimpleAccess`. The constant unpacker's behaviour with `unpackObjects` set is the finding below.
- Each discovery round of the unpackers registers the child scopes again, and the new scopes replace the old ones in `children`. Constants found in inner scopes in an earlier round stay in the arena but are no longer reached from the global scope. This is modelled as written, through `ScopeTree.Register`.
- CacheRemover.SelfCall: the return scan (`CacheRemover.ScanStep`, `CacheRemover.SelfReturns`, `CacheRemover.Recognise`, `CacheRemover.Discover`, `CacheRemover.Run`, `CacheRemover.Remover.GetItselfReturnStatements`, `CacheRemover.Remover.RecogniseAt`, `CacheRemover.Remover.FindCacheFunctions`, `CacheRemover.Remover.Execute`) uses the corrected test. Where the code as written raises a TypeError on a self-call with surplus arguments, these members treat the return as a mismatch instead. `CacheRemover.SelfCallAgrees` shows that this is the only difference.
- Pipeline.Deobfuscate: its `run` parameter stands for every scheduled modification, the cache remover and the constant unpacker included. It is not tied to `CacheRemover.Remover` or `ConstantUnpacker.Unpacker`.
- ConstantUnpacker.Unpacker: `NODES_MAP` (src/modifications/unpacker/constant.ts:5) is process-wide, so the two scheduled constant unpackers share it, and the second does not catalogue again a declarator the first catalogued. The model's `Unpacker` is handed the registry by its constructor, so two passes can be given the same one, and `ConstantUnpacker.RunKeepsUsedDeclarators` holds whatever the registry already holds. Since `Pipeline.Deobfuscate` does not run the model's passes, the schedule itself does not show the sharing.
- The JavaScript objects of scopes, constants and cache functions are kept in index-linked sequences owned by one class per pass. Aliasing between two live objects of the same kind is therefore not modelled.

## Findings

| source | as written | input that shows it | evidently intended | confidence | as-written member | corrected member |
|---|---|---|---|---|---|---|
| src/modifications/unpacker/constantUnpacker.ts:29-30 | with `unpackObjects` set, `RObject.prototype` goes into the list of constant kinds, but it has no `addDeclarationToScope`, so the first node `some` offers to it raises a TypeError | any script with the default configuration: the script root is entered first and is refused by the array kind | object constants are not unpacked by this pass; the flag has no effect | not executed | ConstantUnpacker.ObjectEntryRaisesOnScript | ConstantUnpacker.ObjectFlagInert |
| src/modifications/caches/cacheRemover.ts:175-177 | `every` reads `func_node.params.items[i].name` for every argument, so a self-call with more arguments than parameters reads `name` of undefined and raises a TypeError | `function f(a) { f = function (b) {}; return f(a, a); }` | a surplus argument makes the return a non-self-call | not executed | CacheRemover.SurplusArgumentRaises | CacheRemover.ForwardedAgrees |
