# BST Maker — a verified model of its binary search tree engine

BST Maker is an educational binary search tree visualiser. Its engine is the
`BST` class in `app.py`. This project models that engine in Dafny and proves
what it promises:

- A tree of integer keys kept in binary-search-tree order. Equal keys are
  refused, or routed into the right subtree when duplicates are allowed.
- Insert, search and delete, where delete promotes the in-order successor for
  a node with two children. Each operation returns the trace of the decisions
  it took.
- The in-order, pre-order and post-order traversals, the height and the node
  count.
- The layout calculator, which gives every node an (x, y) position after each
  change.
- The node and edge lists the renderer collects from a laid-out tree.
- The host actions that drive the engine: the duplicates toggle, "Clear All"
  and "Sample Data".

Modules, one per concern:

- `Trees` (`trees.dfy`) holds the node record as a value `Tree`. It also holds:
  - the key multiset, count, height and the three traversals;
  - the ordering invariant in its two forms: `Ordered`, where equal keys may
    sit on the right, and `StrictlyOrdered`.
- `Trace` (`trace.dfy`) turns the trace messages into a structured `Step`
  datatype. It has one constructor per message the engine appends.
- `Engine` (`engine.dfy`) holds the recursive insert, search and delete as
  functions returning `Traced` values, with lemmas about them. The successor
  search `FindMin` is a method with the source's `while` loop. `DeleteNode`
  is the recursive delete as a method that calls it.
- `Positions` (`positions.dfy`) holds the position assignment and what it
  guarantees about the drawing.
- `Render` (`render.dfy`) holds the pre-order collection of node records and
  edges.
- `Session` (`session.dfy`) holds the `BST` class. Insert and Delete replace
  its `root` field and then recompute the layout, as the source's methods do.
  Search, the traversals, the height and the count leave the tree as it is.
- `Scenarios` (`scenarios.dfy`) holds the "Sample Data" fold of inserts, its
  general properties, and the concrete trees, traversals, search trace and
  deletions it produces.

## Model

| member | source | states |
|---|---|---|
| Trees.Count | app.py:247-254 | the count is 0 exactly for the empty tree |
| Trees.Height | app.py:238-245 | the height is 0 exactly for the empty tree |
| Trees.CountIsSize | app.py:251-254 | the node count equals the number of stored keys, duplicates included |
| Trees.HeightAtMostCount | app.py:242-254 | a tree never has more levels than nodes |
| Trees.Inorder | app.py:220-224 | left subtree, node, right subtree; the list has one entry per node, and its contents and order are stated by InorderKeys, InorderNonDecreasing and InorderAscending |
| Trees.Preorder | app.py:226-230 | node, left subtree, right subtree; the list has one entry per node, and its contents are stated by PreorderKeys |
| Trees.Postorder | app.py:232-236 | left subtree, right subtree, node; the list has one entry per node, and its contents are stated by PostorderKeys |
| Trees.InorderKeys | app.py:220-224 | the in-order list holds every stored key as often as it is stored; its length is the node count |
| Trees.PreorderKeys | app.py:226-230 | the pre-order list holds every stored key as often as it is stored; its length is the node count |
| Trees.PostorderKeys | app.py:232-236 | the post-order list holds every stored key as often as it is stored; its length is the node count |
| Trees.InorderNonDecreasing | app.py:220-224 | on an ordered tree (duplicates allowed) the in-order list is non-decreasing |
| Trees.InorderAscending | app.py:220-224 | on a strictly ordered tree the in-order list is strictly ascending |
| Trees.StrictImpliesDistinct | app.py:107-132 | a strictly ordered tree is ordered and stores no key twice |
| Trees.DistinctImpliesStrict | app.py:107-132 | an ordered tree whose keys are distinct is strictly ordered, the converse of the previous row |
| Trees.SameShapeQueries | app.py:267-279 | changing only positions keeps the keys, count and height |
| Trees.SameShapeTraversals | app.py:267-279 | changing only positions keeps all three traversals |
| Trees.SameShapeOrdered | app.py:267-279 | changing only positions keeps both ordering invariants |
| Engine.Search | app.py:140-156 | the trace is never empty; a true answer means the key is stored and the trace ends with Found for it; a false answer ends with NotFound |
| Engine.SearchFindsStoredKey | app.py:134-156 | on an ordered tree the search answers true if and only if the key is stored |
| Engine.AddsLeafGrows | app.py:107-132 | adding one leaf adds exactly that key to the multiset and one node to the count |
| Engine.InsertAt | app.py:107-132 | the recursive insert keeps the subtree's root key and always traces at least one step |
| Engine.InsertAtOutcome | app.py:107-132 | with duplicates allowed, or when the descent does not meet the key, exactly one leaf with the key is added at an absent slot and nothing else changes, and the trace ends with an insertion event; otherwise the tree is unchanged and the trace ends with DuplicateRejected |
| Engine.Insert | app.py:95-105 | inserting into an empty tree makes the key the root, with the single CreateRoot step |
| Engine.InsertAtKeys | app.py:107-132 | the recursive insert adds no key other than the inserted one |
| Engine.InsertOrdered | app.py:95-132 | insert keeps the tree ordered; without an accepted duplicate it also keeps a strictly ordered tree strictly ordered |
| Engine.InsertAtOrdered | app.py:107-132 | the recursive insert keeps an ordered subtree ordered |
| Engine.InsertAtStrictlyOrdered | app.py:107-132 | the recursive insert of a key not accepted as a duplicate keeps a strictly ordered subtree strictly ordered |
| Engine.InsertOutcome | app.py:95-132 | on an ordered tree: if duplicates are allowed or the key is absent, one leaf is added, the keys grow by the key and the count by one; otherwise the tree is unchanged and the trace ends with the rejection |
| Engine.Leftmost | app.py:200-204 | the leftmost key is a stored key |
| Engine.LeftmostIsMin | app.py:200-204 | in an ordered tree the leftmost key is at most every stored key |
| Engine.FindMin | app.py:200-204 | the loop that follows left links returns the leftmost key, which is stored |
| Engine.Delete | app.py:165-198 | the descent by comparison and its three target cases (no left child, no right child, two children with successor promotion); the trace is never empty. Keys, count and order are stated by DeleteAbsent, DeletePresent, DeleteOrdered, DeleteStrictlyOrdered and DeleteTwoChildren |
| Engine.DeleteNode | app.py:165-198 | the recursive delete, with the successor located by the loop, yields exactly the tree and trace of the delete specification |
| Engine.DeleteAbsent | app.py:165-169 | deleting an absent key leaves the tree unchanged, and the trace ends with DeleteNotFound |
| Engine.DeleteRemovesOne | app.py:165-198 | on an ordered tree holding the key, delete removes exactly one occurrence of it |
| Engine.DeleteReportsTarget | app.py:177-178 | deleting a stored key records TargetFound for it |
| Engine.DeletePresent | app.py:158-198 | deleting a stored key removes one occurrence, lowers the count by one, keeps the tree ordered and reports the target |
| Engine.DeleteKeysShrink | app.py:165-198 | delete never adds a key |
| Engine.DeleteOrdered | app.py:165-198 | delete keeps the tree ordered |
| Engine.DeleteStrictlyOrdered | app.py:165-198 | delete keeps a strictly ordered tree strictly ordered |
| Engine.DeleteTwoChildren | app.py:187-196 | deleting the key of a node with two children keeps its left subtree and position. The node takes the least key of the right subtree, and that key's occurrence leaves the right subtree. The trace reports the successor |
| Positions.Assign | app.py:267-279 | every node gets the exact midpoint of its interval as x and its level minus its depth as y, and the shape and keys are kept |
| Positions.Layout | app.py:256-265 | after recomputation the tree is laid out from its height with the same shape |
| Positions.PlacedAt | app.py:267-279 | a node at depth d has y equal to the level minus d, d is below the height, and x lies strictly inside the interval |
| Positions.PlacedXsAscending | app.py:267-279 | x coordinates lie strictly inside the interval and strictly increase in in-order, so no two nodes share an x |
| Positions.AssignKeepsPlaced | app.py:267-279 | assigning positions again to a placed tree changes nothing |
| Positions.LayoutKeepsLaidOut | app.py:256-265 | recomputing the layout of a laid-out tree changes nothing |
| Positions.LaidOutGeometry | app.py:256-279 | in a laid-out tree of height H the node at depth d sits at y = H-1-d >= 0, with x values distinct, inside (0, 2^H) and ordered like the keys |
| Render.Collect | app.py:327-350 | one node record per node, and one edge per node other than the root |
| Render.CollectPreorder | app.py:327-350 | the node records come out in pre-order |
| Render.CollectEdgesAreLinks | app.py:338-350 | every collected edge runs from the position of a node to the position of one of its children |
| Render.LinksAreCollected | app.py:338-350 | every link from a node to a child yields the edge from the node's position to the child's position |
| Render.CollectRecordsAreNodes | app.py:331-336 | every node record carries the position and key of a node of the tree |
| Render.NodesAreCollected | app.py:331-336 | every node of the tree is recorded with its position and key |
| Render.ChildSides | app.py:272-279 | on a placed tree a left child sits one level below its parent and to its left, and a right child one level below and to its right |
| Render.EdgesStepDown | app.py:327-350 | on a placed tree every edge goes down exactly one level and changes x |
| Session.BST.constructor | app.py:90-93 | a new BST is empty, laid out, and has the requested duplicate policy |
| Session.BST.CalculatePositions | app.py:256-265 | the root is replaced by its layout, with the same shape |
| Session.BST.Insert | app.py:95-105 | the new root is the laid-out result of the insert specification, and the trace is its trace. The key is added, or the tree is unchanged and the rejection reported, and the tree stays ordered and laid out |
| Session.BST.Search | app.py:134-138 | the answer is true if and only if the key is stored. The trace ends with Found or NotFound for it, and nothing changes |
| Session.BST.Delete | app.py:158-163 | the new root is the laid-out result of the delete specification. One occurrence is removed if stored; otherwise nothing changes and the miss is reported. The tree stays ordered and laid out |
| Session.BST.GetTraversals | app.py:206-218 | the three traversals have the node count as length and the stored keys as contents. In-order is non-decreasing, and ascending when strictly ordered |
| Session.BST.GetHeight | app.py:238-240 | returns the height, at most the node count and 0 exactly for the empty tree |
| Session.BST.GetNodeCount | app.py:247-249 | returns the node count, equal to the number of stored keys |
| Session.BST.SetAllowDuplicates | app.py:455-457 | only the policy changes; the tree is untouched and stays valid |
| Session.BST.Reset | app.py:507-508 | the tree becomes empty |
| Scenarios.InsertAll | app.py:513-516 | the sample loop: after inserting a non-empty list the tree is non-empty and laid out. Its keys and order are stated by the InsertAll lemmas |
| Scenarios.InsertAllWithDuplicates | app.py:513-516 | with duplicates allowed, inserting a list adds exactly its keys as a multiset |
| Scenarios.InsertAllCountWithDuplicates | app.py:513-516 | with duplicates allowed, the node count grows by the length of the list |
| Scenarios.InsertAllOrdered | app.py:513-516 | inserting a list keeps the tree ordered under either policy |
| Scenarios.InsertAllWithoutDuplicates | app.py:513-516 | without duplicates, the tree stays strictly ordered and holds the old keys plus the listed ones |
| Scenarios.SampleBuild | app.py:513-516 | the sample data on an empty tree builds 50 with children 30 and 70, and leaves 20, 40, 60 and 80, at the positions the layout gives |
| Scenarios.SampleInorder | app.py:220-224 | the sample tree's in-order list is 20, 30, 40, 50, 60, 70, 80 |
| Scenarios.SamplePreorder | app.py:226-230 | the sample tree's pre-order list is 50, 30, 20, 40, 70, 60, 80 |
| Scenarios.SamplePostorder | app.py:232-236 | the sample tree's post-order list is 20, 40, 30, 60, 80, 70, 50 |
| Scenarios.SampleSize | app.py:238-254 | the sample tree has height 3 and 7 nodes |
| Scenarios.SampleXs | app.py:256-279 | the sample tree's root sits at (4, 2), and its x coordinates in in-order are 1 to 7 |
| Scenarios.SampleSearch | app.py:140-156 | searching 60 in the sample tree visits 50, 70 and 60, and finds it |
| Scenarios.SampleDeleteRoot | app.py:165-198 | deleting 50 from the sample tree puts its successor 60 at the root and removes 60's old leaf |
| Scenarios.SampleDeleteAbsent | app.py:165-169 | deleting an absent key from the sample tree changes nothing and reports the miss |
| Scenarios.DuplicateTen | app.py:124-129 | with duplicates allowed, inserting 10 twice makes the second 10 the root's right child |

## Left out

- Node identity, aliasing and in-place link updates. The tree is a value, and
  each operation replaces the class's `root` field with the new tree. This
  matches the source, because every node has exactly one owner. The model does
  not show which node objects are reused. For example, in a two-child delete
  the target node keeps its identity and takes the successor's key; the model
  shows only its key and position.
- Positions.Assign: positions are exact integers, not floats. Each interval
  handed to a node is twice a power of two wide, so every midpoint is an
  integer. The source's float coordinates equal these integers only while the
  height is at most 53; a float holds integers exactly only up to 53
  significant bits. In a taller tree, such as a chain of 54 or more keys, the
  source's midpoints round. A node can then sit on an edge of its interval or
  share an x with its child. `Positions.PlacedXsAscending` and
  `Positions.LaidOutGeometry` hold for the integer model, and for the source
  only up to that height.
- The recursion depth limit. Every recursive helper in the source (insert,
  search, delete, traversals, height, count, layout, collection) raises an
  error once the tree is about 1000 levels deep. The model's recursion has no
  such limit.
- Node colour. Every node keeps the default colour it is created with; the
  engine never changes it. The renderer copies it into each node record, and
  `Render.NodeView` leaves that field out because it always holds the default.
- The trace's wording. Each message is a `Step` constructor with the same
  data. The host's formatting of that data into text is not modelled.
- The operation history list. It is host state that only accumulates
  messages.
- The Streamlit page, the Plotly figure and its styling, and the
  empty-tree placeholder.
- The "Random" button. It draws from a random generator, which a model can
  only take as a parameter. With that parameter it is `Session.BST.Insert`.
- The input widgets' bounds (-1000 to 1000). They constrain the UI, not the
  engine, and the model takes any integer.
- Engine.FindMin returns the leftmost key instead of the leftmost node. The
  caller reads only that node's value.
- Session.BST.Reset empties the existing object rather than building a new
  `BST`. It keeps the current duplicate policy, which is the value the host
  passes to the new object. `Session.BST.constructor` models that
  construction.
- Scenarios.SampleBuild starts from an empty tree with duplicates refused. The
  sample button inserts into whatever tree is present, under the current
  policy. That general case is covered by the `InsertAll` lemmas. With the
  sample's distinct keys on an empty tree, both policies build the same tree.
