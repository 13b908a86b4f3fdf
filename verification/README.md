# Verified model of the smart-home core

A Dafny model of the parts of smart-home whose behaviour is hard to see from one function: typed
attribute trees, the template forest, transactional imports, role inheritance, the script object
inspector, polygon columns, and script copies and versions. `dafny verify dfyconfig.toml` checks it.

Conventions used throughout:

- A table is a sequence or a map of rows; a new id is any id that no row uses. A database step that
  may fail is an arbitrary choice between success, an error and a panic (`Transactions.Outcome`). In a
  reliable session (`Session.Reliable`) a statement fails only when the tables refuse it, and the
  contracts say when that is.
- A Go map is a Dafny map, and a loop over a Go map or a JavaScript object picks its keys in an
  arbitrary order, so what is proved holds for every order.
- A panic of the source is the negation of a predicate (`CanFill`, `CanSerialize`, `CanRebuild`).
- Methods with loops and mutable state are proved against functions on values; the laws are lemmas
  about those functions.

Files, by the part of the system they model:

| part | files |
|---|---|
| attribute trees | `AttributeTree` (functions), `AttributeLaws` (laws over whole trees), `AttributePaths` (laws at every place of a tree), `AttributeHeap` and `AttributeRestore` (pointers and updates in place), `EntityAttributes` (JSON columns and event comparison) |
| template forest | `TemplateForest` (unfolding), `TemplateUpdate` (goroutines), `TemplateRoundTrip` |
| imports | `Transactions`, `DashboardImport`, `Registry` (resolve or create), `Imports` |
| access lists | `Roles`, `RoleUpdate` |
| inspector | `Inspector`, `InspectorLayout` (the text by positions), `InspectorPaths`, `Format` |
| polygons | `Decimal`, `Polygon`, `PolygonGrammar` (the texts that are read), `PolygonRoundTrip` |
| scripts | `ScriptCopy`, `ScriptVersions` |

Where the code does something else than its callers or its documentation suggest, the model follows
the code and a lemma says exactly when:

- On flat sets the flag that `Deserialize` returns is the opposite of `EventEntityState.Compare` exactly
  when some scalar differs, or else no list changes and no attribute has type array
  (`EntityAttributes.ChangedIsNotCompare`); a new list alone is stored without a report
  (`EntityAttributes.ListChangeGoesUnreported`).
- Loading an entity rebuilds map signatures one level deep and no deeper (`EntityAttributes.LoadRestores`).
- A forest with distinct names comes back from the parent column exactly if no top node and no parent
  has an empty name (`TemplateRoundTrip.SurvivesExactly`; `TemplateRoundTrip.LostNode` gives a table on
  which any other forest fails). Templates are required to have a name, but the update does not check.
- Written below a parent, every top node of a template forest is updated twice and can end up there or
  without a parent (`TemplateRoundTrip.TopsRace`).
- The ancestor query stops exactly when no role repeats on the chain (`Roles.QueryEndsExactly`); it does
  not stop on a role that is its own parent (`Roles.OwnParentNeverEnds`).
- The result of `Commit` is ignored, so a failed commit loses the work without an error
  (`Transactions.Session.Finish`).
- An imported entity is linked to its area only if the area existed before (`Imports.ImportArea`).
- Copy names repeat exactly from the point where the suffix has reached 2147483648
  (`ScriptCopy.CopiesDistinct`).

## Model

| member | source | states |
|---|---|---|
| AttributeLaws.RoundTrip | pkg/models/attribute.go:177-418 | serializing a tree and filling its signature with the result gives the tree back, with no panic on the way, if and only if, at every depth, scalar types hold no generic map and no list with a nil or a generic map in it, array types hold lists without nils, maps and sets, map types hold attribute sets, and there are no other types |
| AttributeLaws.SignatureIdempotent | pkg/models/attribute.go:354-418 | a signature is its own signature, at every depth, arrays of attribute sets included |
| AttributeLaws.FillTwice | pkg/models/attribute.go:241-351 | filling with the same data again changes nothing, reports no change and cannot panic if the first time did not |
| AttributeLaws.MergeLaw | pkg/models/attribute.go:241-351 | for data that fits the target, two fills in a row equal one fill with the deep merge (nil never overrides, lists replace whole), and none of the calls panics |
| AttributeLaws.ShapeKept | pkg/models/attribute.go:241-351 | keys, names, types and nesting survive a fill at every depth if and only if no datum replaces an attribute set or puts one where there was none |
| AttributeLaws.ChangedExactly | pkg/models/attribute.go:241-351 | the changed flag is set if and only if some scalar datum at an existing path, at any depth, prints differently from the value there |
| AttributePaths.SerializedAt | pkg/models/attribute.go:177-238 | at every attribute set, through maps and arrays to any depth, the serialized form has a map at the same place with exactly the data of the attributes of known type: scalars as they are, arrays element by element, maps for attribute sets |
| AttributePaths.SerializePanicsExactly | pkg/models/attribute.go:193-215 | serializing panics if and only if some array, at any depth, has a nil element |
| AttributePaths.SignedAt | pkg/models/attribute.go:354-418 | at every attribute set, through maps and arrays, the signature has the stripped set, with arrays keeping their sets in order and nothing else |
| AttributePaths.FilledAt | pkg/models/attribute.go:241-351 | wherever data meets an attribute set, at any depth, the result has a set there with the same keys, names and types and each value replaced or kept as its datum says |
| AttributePaths.KeptInOrder | pkg/models/attribute.go:288-329 | a list datum is stored with its elements in order and without the maps among them |
| AttributePaths.FillPanicsExactly | pkg/models/attribute.go:246-329 | filling panics if and only if it comes to a list for an unknown key, a list with a nil in it, a generic map against a nil value or a generic map against a signature without names and types |
| AttributeHeap.AttributeSet.Deserialize | pkg/models/attribute.go:241-351 | in-place filling, in any key order, leaves the receiver with the contents the value-level fill gives and returns its flag; it touches nothing outside the receiver's own objects |
| AttributeHeap.AttributeSet.Visit | pkg/models/attribute.go:246-345 | one entry: a scalar puts a new cell under its key, anything else changes the cell that is there; all other attributes keep their contents |
| AttributeHeap.Cell.FillIn | pkg/models/attribute.go:250-329 | a map is followed into the nested set, a generic map is rebuilt first, a list replaces the value without a report |
| AttributeHeap.RebuildSet | pkg/models/attribute.go:254-266 | generic maps in the target become attributes with their name and type and the datum under their key |
| AttributeHeap.NewCell | pkg/models/attribute.go:334-339 | a new cell for any value, sets and lists of sets included |
| AttributeHeap.AttributeSet.Serialize | pkg/models/attribute.go:177-238 | the loop over cells yields the serialized form of the contents, in any key order, and modifies nothing |
| AttributeHeap.SerializeList | pkg/models/attribute.go:193-215 | list elements that are attribute sets are serialized, all others are kept |
| AttributeHeap.AttributeSet.SignInto | pkg/models/attribute.go:357-411 | the walk that overwrites values and moves cells yields the signature of the contents it started with |
| AttributeHeap.Cell.Sign | pkg/models/attribute.go:361-410 | one cell stripped in place holds the signature of the attribute it held |
| AttributeHeap.SignItems | pkg/models/attribute.go:370-390 | an array keeps its attribute sets in order, each stripped, and nothing else |
| AttributeHeap.AttributeSet.Signature | pkg/models/attribute.go:354-418 | the result is a new set with the signature; the receiver and everything reachable from it is not written, although the walk overwrites values |
| AttributeHeap.AttributeSet.Copy | pkg/models/attribute.go:421-445 | the copy has equal contents and shares no object with the original |
| AttributeRestore.Restore | pkg/models/attribute.go:177-418 | in memory, a stripped copy filled with the serialized values has the contents of the original, which stays as it was |
| AttributeRestore.FillAgain | internal/system/supervisor/base_actor.go:263-321 | on a set in memory, a second call with the same data reports no change and leaves the first call's contents |
| EntityAttributes.CompareAfterFill | pkg/events/entity_state.go:48-67 | on flat sets, the state before a fill and the one after it, each with a name or without, compare as identical if and only if they have the same name, no change was reported, no list changed silently and no attribute has type array |
| EntityAttributes.ChangedIsNotCompare | pkg/models/attribute.go:448-467 | on flat sets, the changed flag is the negation of the comparison if and only if some scalar datum prints differently from the value it meets, or no list changes silently and no attribute has type array |
| EntityAttributes.ListChangeGoesUnreported | pkg/models/attribute.go:288-329 | an input for which the comparison sees a change and the flag does not: a point filled for the first time |
| EntityAttributes.CompareIsOneSided | pkg/models/attribute.go:448-467 | only the keys and values of the first state count, and the second only where the first has a key; the types of the first and further attributes of the second make no difference |
| EntityAttributes.LoadRestores | internal/adaptors/entity.go:311-332 | storing signature and values as JSON and loading them gives the tree's names, types and normalised values, without a panic, if and only if the tree survives the round trip through its own signature, maps nested in maps are empty and no other value is or holds an attribute set |
| EntityAttributes.LoadWithoutRow | internal/adaptors/entity.go:311-332 | without a storage row the loaded entity has the known keys, names and types of its attributes, no scalar values, and generic maps with the signatures of its maps |
| EntityAttributes.DecodesSignature | internal/adaptors/entity.go:361-365 | encoded and decoded attributes keep keys, names and types, and their values as JSON has them |
| EntityAttributes.JsonFixed | internal/adaptors/entity.go:311-332 | a value as JSON decodes it, at any depth, stays as it is when it is encoded and decoded |
| EntityAttributes.DeeperIsLost | pkg/models/attribute.go:251-274 | two levels down, a non-empty attribute set never survives the rebuild step: it panics or the contents differ |
| TemplateForest.ChainUnique | internal/db/template.go:242-255 | with unique names, an item has at most one chain of parents from a root |
| TemplateForest.ChainBound | internal/db/template.go:242-255 | no name repeats along a chain from a root, so the recursion is no deeper than the table is long, whatever cycles it has |
| TemplateForest.GetItemsTree | internal/db/template.go:177-200 | the scan over roots ends on every finite table and builds the forest the parent column stands for |
| TemplateForest.RenderTreeRecursive | internal/db/template.go:242-255 | the recursive scan ends and yields the children of one item in table order |
| TemplateForest.ForestIsReachable | internal/db/template.go:177-255 | the forest shows an item if and only if its parent chain ends at a parentless item, exactly once, with its own description, status and parent |
| TemplateForest.RenderInOrder | internal/db/template.go:177-255 | siblings stand in the order of their rows, at every level |
| TemplateUpdate.Templates.UpdateItemsTree | internal/db/template.go:258-280 | for every interleaving, the writes issued are those of the forest and each row is always either untouched or has the parent of an issued write for its name |
| TemplateUpdate.Templates.UpdateTreeRecursive | internal/db/template.go:291-300 | below a node, one write per child and so on, each in its own goroutine |
| TemplateUpdate.Templates.RunOne | internal/db/template.go:282-289 | running any waiting goroutine keeps the invariant that relates rows, issued and pending writes |
| TemplateUpdate.ForeignKeyKept | internal/db/template.go:258-300 | at every moment of every interleaving the parent column points to rows of the table |
| TemplateRoundTrip.UpdateThenGet | internal/db/template.go:177-300 | for a forest with distinct names over all items, once all goroutines are done in whatever order, reading gives that forest up to the order of siblings |
| TemplateRoundTrip.UpdateAndSettle | internal/db/template.go:177-300 | one call from an idle table, followed by all its goroutines: every listing of the table then reads as the forest that was written, up to the order of siblings |
| TemplateRoundTrip.SurvivesExactly | internal/db/template.go:258-300 | for a forest with distinct names, reading gives it back from every start table with these items, after every interleaving and in every listing, if and only if no top node and no parent has an empty name |
| TemplateRoundTrip.LostNode | internal/db/template.go:258-300 | for any other such forest, a start table, a settled table and a listing for which it does not come back |
| TemplateRoundTrip.TopsRace | internal/db/template.go:258-289 | below a parent every named top node ends up there or without a parent, and for each of the two there is an interleaving in which it does |
| TemplateRoundTrip.GetThenUpdate | internal/db/template.go:177-300 | writing back the forest that was read changes no row, in every interleaving, cycles in the table included |
| TemplateRoundTrip.RenderAgrees | internal/db/template.go:177-255 | reading any table whose parent column agrees with a forest gives that forest up to the order of siblings |
| Transactions.Session.Finish | internal/adaptors/transaction_manager.go:41-61 | after an error or a panic the tables are what they were at the start and an error is returned; otherwise the work is kept if the commit succeeds |
| DashboardImport.Import | internal/endpoint/dashboard.go:191-258 | either nothing changed, or exactly one board was added whose tabs, cards and items equal the input in content, order and nesting, under fresh ids and valid links; a failure or panic at any insert is the first case, and on a reliable database there is none if and only if the new name is free and no two tabs have the same name |
| DashboardImport.ImportTabs | internal/endpoint/dashboard.go:203-238 | all new tabs hang below the new board and read as the input's tabs; nothing is added below older rows |
| DashboardImport.ImportCards | internal/endpoint/dashboard.go:213-234 | the same for the cards and items of one tab |
| DashboardImport.ImportItems | internal/endpoint/dashboard.go:222-231 | the same for the items of one card |
| DashboardImport.ImportKeepsOthers | internal/endpoint/dashboard.go:191-258 | every other board reads as before, with all its tabs, cards and items |
| DashboardImport.PreloadEntities | internal/endpoint/dashboard.go:154-188 | the map has an entry for an id if and only if some card of some tab, or an item on one, shows it: the entity, or nothing if there is none |
| Roles.QueryEndsExactly | internal/db/permission.go:73-92 | the recursive query ends if and only if no role repeats on the ancestor chain, and then within as many rounds as there are roles |
| Roles.OwnParentNeverEnds | internal/db/permission.go:73-92 | a role that is its own parent, on which the query does not end |
| Roles.EndsUnlessLineRepeats | internal/db/permission.go:73-92 | the query ends if and only if no line of roles, each the child of the next in the parent column, has a role twice |
| Roles.AncestryIsLines | internal/db/permission.go:73-92 | the query reaches a role if and only if such a line leads from the role to it |
| Roles.AncestorStep | internal/db/permission.go:81-84 | the ancestors of a role are itself and the ancestors of its parent |
| Roles.GetAllPermissions | internal/db/permission.go:70-99 | the rows returned are exactly the permission rows of the role and its ancestors, in id order and each once |
| Roles.GetAccessList | internal/adaptors/role.go:127-155 | every package has a non-empty list without repetitions, which holds a level if and only if the role or an ancestor has that permission row |
| Roles.HoldsWithParent | internal/adaptors/role.go:127-155 | a role holds a level if and only if it has a row of its own for it or its parent holds it |
| RoleUpdate.UpdateAccessList | internal/endpoint/role.go:176-234 | on failure nothing changed, and a known role on a reliable database never fails; on success the role's own rows are those the diff calls for and the rows of all other roles are the same, for every visiting order |
| RoleUpdate.UpdateBody | internal/endpoint/role.go:184-227 | the transaction body, against the access list read before it |
| RoleUpdate.Add | internal/db/permission.go:48-55 | one row with an unused id, or a failure that changes nothing: on a reliable database, if and only if the role is unknown or has the row already |
| RoleUpdate.Delete | internal/db/permission.go:58-67 | the role's rows for these levels are gone and all other rows stay |
| RoleUpdate.AccessAfterUpdate | internal/endpoint/role.go:176-234 | afterwards a level is held if and only if the diff grants it, or does not mention it and it was held, or revokes it and a proper ancestor holds it |
| Registry.Resolve | internal/endpoint/entity.go:140-148 | a known name gives its row's id; an unknown one adds one row, with the id it came with or an unused one; names stay unique and no old row changes; on a reliable database it fails if and only if the name is new and its id is taken |
| Registry.ResolveTags | internal/endpoint/entity.go:151-162 | every tag carries the id of the row with its name, the rows added are exactly those of unknown names |
| Registry.ResolveScripts | internal/endpoint/entity.go:137-148 | the same for scripts |
| Registry.RepeatCreatesNone | internal/endpoint/entity.go:137-185 | resolving the same names again adds no row |
| Imports.SharedIds | internal/endpoint/entity.go:137-185 | after an import, tags have the same id if and only if they have the same name, and so do scripts, in the list or on an action |
| Imports.SharedTagIds | internal/endpoint/variable.go:174-185 | the same for the tags of a saved variable |
| Imports.ActionRows | internal/adaptors/entity_action.go:120-138 | after an import each action has one new row, in order, with its name and data, the id of the row that has the name of its script, and without a script the script id it came with |
| Imports.ActionRowsShare | internal/endpoint/entity.go:164-185 | the rows of two actions have the same script if and only if the scripts of the actions have the same name |
| Imports.StateRows | internal/adaptors/entity_state.go:120-138 | after an import each state has one new row, in order, with its name and data |
| Imports.LinksAre | internal/adaptors/entity.go:400-437 | the new links are exactly those from the entity to its tags, scripts and metrics |
| Imports.Import | internal/endpoint/entity.go:115-211 | either nothing changed, or the entity was added with its columns, states, actions, metrics and links, its area was resolved, and every tag and every script, in the list or on an action, has the id of the one row with its name; on a reliable database it succeeds whenever the tables accept everything in it |
| Imports.ImportArea | internal/endpoint/entity.go:124-136 | the area gets the id of the row with its name, which is added if it is missing; the entity's area link is set if and only if it was there |
| Imports.AddMetrics | internal/endpoint/entity.go:194-201 | one new row for each metric, whose unused id the metric gets |
| Imports.AddEntity | internal/adaptors/entity.go:56-67 | ids with a space, known ids, unknown areas and scripts and names given twice are refused, and on a reliable database nothing else is; otherwise one entity row, a row for each state and action in order, and the links of tags, scripts and metrics |
| Imports.ImportActions | internal/endpoint/entity.go:164-185 | every action is reset and attached to the entity, and its script, if it has one, is resolved |
| Imports.CreateOrUpdate | internal/endpoint/variable.go:167-195 | either nothing changed, or the variable has its value, system flag, entity and exactly the links of its tags, every tag has the id of the row with its name, and other variables keep theirs; on a reliable database it fails if and only if its entity is unknown |
| Inspector.Inspect.FormatValue | data/scripts/util.js:159-315 | it ends on every finite graph, cyclic or not, leaves `seen` as it was and returns the text of the value below the objects in `seen`: for an object its opening brace, its base, the text of every slot once and in order with a separator between two of them, and its closing brace, where the text is broken over lines if and only if the lengths of the slots plus one for each exceed 60 and nested lines are indented |
| Inspector.Inspect.FormatProperty | data/scripts/util.js:379-436 | the text of one property: accessor, circular or nested and indented; `seen` is restored |
| Inspector.Inspect.FormatSlots | data/scripts/util.js:359-376 | array elements by index with holes, then the other keys; `seen` is restored |
| Inspector.SlotsAre | data/scripts/util.js:359-376 | an array has a slot for every index, a hole exactly where no element has that index, and then its named keys; any other object has its visible keys |
| InspectorLayout.ReducedIsLaidOut | data/scripts/util.js:439-454 | the slots lie in the text one after the other between the braces, found by position, and the line breaks are there if and only if the lengths call for them |
| InspectorLayout.LayoutIsText | data/scripts/util.js:379-454 | the same at every level of nesting, with the lines of nested texts indented |
| InspectorPaths.CircularExactly | data/scripts/util.js:159-436 | for every depth, null included, a place in the output exists if and only if the walk to it stays within the depth and goes through no object twice; it is `[Circular]` if and only if it holds an object the walk went through, and otherwise shows its own content: accessor kind, primitive text, or one named entry per property |
| Format.Format | data/scripts/util.js:22-60 | the replacing loop and the appending loop print the piece list of the format |
| Format.Conservation | data/scripts/util.js:22-60 | every later argument is used exactly once and in order, directives first; the pieces spell the format; a directive stays only when all arguments are gone and no directive is overlooked; `%%` takes none |
| Polygon.FormatPointsLoop | internal/db/polygon.go:71-93 | the loop prints the ring, closed once, or fails for fewer than three points |
| Polygon.Polygon.Scan | internal/db/polygon.go:49-65 | one point is appended for each row, in order, with its first two numbers; on malformed text none is |
| PolygonGrammar.UnmarshalExactly | internal/db/polygon.go:54-57 | a text is read, and read as these numbers, if and only if it is a list of lists of numbers with these values, spelled by the JSON grammar of RFC 8259 with any blanks, signs, fractions and exponents, or with null in the place of a list or a number |
| PolygonGrammar.NumberReads | internal/db/polygon.go:54-57 | every numeral is read as its value, exponents included |
| PolygonGrammar.NumberSpells | internal/db/polygon.go:54-57 | only numerals are read as numbers |
| PolygonRoundTrip.RoundTrip | internal/db/polygon.go:41-93 | for three points or more with coordinates that are multiples of 0.000001, scanning the printed text gives the ring closed once, and printing that gives the same text |
| PolygonRoundTrip.ScanPrinted | internal/db/polygon.go:41-93 | for any coordinates, scanning the printed text gives the ring closed once with every coordinate rounded to six decimals |
| PolygonRoundTrip.PrintScanned | internal/db/polygon.go:71-93 | printing the scanned ring gives the same text, for any coordinates |
| PolygonRoundTrip.RoundedIsNearest | internal/db/polygon.go:86-90 | the printed number is a multiple of 0.000001 at most half of that away, is the number itself if that is a multiple, and prints the same again |
| PolygonRoundTrip.OpenedExactly | internal/db/polygon.go:75-79 | the last point is dropped if and only if its numbers are those of the first, where the two zeros are equal |
| PolygonRoundTrip.ShortPolygonText | internal/db/polygon.go:71-93 | the text is `()` if and only if there are fewer than three points, a repeated closing point aside |
| ScriptCopy.Copy | internal/endpoint/script.go:97-136 | at most one row is added, with an unused id, the next name and the same body; names stay unique; on a reliable database one is added if and only if the script exists and the next name is free |
| ScriptCopy.CopyNameOf | internal/endpoint/script.go:108-114 | what stands before the first `[CPY]` stays and the text up to the next one is read as a number and raised by one; whatever follows is dropped |
| ScriptCopy.CopyNameForms | internal/endpoint/script.go:108-114 | every name is free of `[CPY]` or has this form |
| ScriptCopy.ParseNumeral | internal/endpoint/script.go:110 | a numeral with or without a sign is read as its value or the nearest 32-bit number |
| ScriptCopy.ParseOther | internal/endpoint/script.go:110 | any other text is read as 0, unless the digits in front are too many for 32 bits already |
| ScriptCopy.ItoaReads | internal/endpoint/script.go:110-111 | what is printed for a 32-bit number is read back as that number |
| ScriptCopy.CopyChain | internal/endpoint/script.go:108-114 | copying the newest copy n times gives `base[CPY]`, then `base[CPY]1`, `base[CPY]2` and so on, until the suffix sticks at 2147483648 |
| ScriptCopy.CopiesDistinct | internal/endpoint/script.go:108-114 | two names of the chain are equal if and only if both come after that suffix was reached |
| ScriptVersions.Update | internal/db/script.go:164-215 | on success the script row is replaced, one version is appended and the script's versions are trimmed; an error part of the way keeps other scripts' rows and all old versions; on a reliable database it fails if and only if the script is unknown or its name is taken |
| ScriptVersions.TrimHistory | internal/db/script.go:201-212 | with increasing stamps the delete statement keeps the ten newest versions of the script, in order |
| ScriptVersions.TrimKeepsNewest | internal/db/script.go:201-212 | whatever the stamps are, ten versions stay, or all if there are fewer, and none that goes has a later stamp than one that stays |
| ScriptVersions.TrimOthers | internal/db/script.go:201-212 | it keeps every version of every other script |
| ScriptVersions.BoundedHistory | internal/db/script.go:164-215 | over every run with increasing stamps, from any table of older versions, each script that was updated keeps exactly the latest ten of its old sources and its updates, in order, and any other script keeps its history |

## Left out

- gorm, Postgres, JSON and gob: tables, statements and codecs are modelled by what they are documented to do; a repeated link row is ignored, `Copy` is a deep copy.
- Attribute values: nil and empty lists are one value, widths of numbers are merged into one kind, and printing with `%v` is any function of the value, so addresses in a printed set are not captured. `[]Attributes` targets do not occur.
- AttributeLaws.SignatureIdempotent: a list with a nil element, which gob refuses to copy, is treated like one without it.
- AttributeHeap.AttributeSet.Deserialize: data is a value, so an attribute set in it is stored as a new set; that the source shares it with its other owner is not captured.
- EntityAttributes.LoadRestores: how JSON rewrites numbers and times is any function; the settings column follows the attributes' code path and is not stated separately.
- TemplateUpdate.Templates.UpdateItemsTree: a parent write fails only when the foreign key refuses it, and two overlapping calls are not modelled.
- TemplateForest.GetItemsTree: the tree is a value; the source links nodes by pointers. The row order is whatever the query returned.
- Transactions.Session.Finish: isolation between overlapping transactions.
- DashboardImport.Import: the loaded entities go to the input board, as in the source, so they are not part of the result; rows are read back in insertion order.
- Imports.Import: that it succeeds only if everything is acceptable beforehand is not stated, since a fresh id may be one the entity came with. Script compilation, empty icons and the trimming of names of states and actions are left out, so the name of a state or an action is the trimmed one; a nil script in the list panics in the source. Actions are reset in a loop of their own before their scripts are resolved. `inActions` only names the scripts on the actions.
- Imports.CreateOrUpdate: the time stamps of a variable.
- The tag loops of entity and variable Add and Update are the loop of `Registry.ResolveTags`.
- Roles.GetAccessList: the order of the levels of a package, which is the order of the rows.
- Inspector.Inspect.FormatValue: custom inspect hooks, values read through getters, colours, the removal of index keys of boxed strings, and how a key is quoted; functions, dates, regular expressions and errors are opaque texts.
- Format.Format: a first argument that is not a string; conversions of arguments are opaque texts.
- Polygon.Polygon.Scan: numbers too large for float64, which are errors in the source, and the text Postgres itself renders; a row with fewer than two numbers, null included, panics in the source.
- PolygonRoundTrip.ScanPrinted: the rounding of a scanned decimal to the nearest float64; infinities and NaN.
- PolygonRoundTrip.ShortPolygonText: the cast of the text to a polygon, which Postgres refuses for `()`. The area adaptor makes a polygon only of three points or more (internal/adaptors/area.go:199), so only one with a repeated closing point can get there.
- ScriptCopy.Copy: events and logging.
- ScriptVersions.Update: language, checksum and compiled code; versions with equal stamps are ordered latest first, where the statement leaves it open.
- Queries for lists and search, sign-in, caching, HTTP, sockets and plugins, which would only add easy members or rest on libraries.
