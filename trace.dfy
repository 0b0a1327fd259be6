/** Structured trace events: one constructor for each point where the engine
    records a step of its decision path. The host formats them for display. */
module Trace {

  /** Where a descent currently stands: the root, or the left or right child
      of the node holding `parent`. */
  datatype Position = Root | LeftOf(parent: int) | RightOf(parent: int)

  datatype Step =
    // insert
    | CreateRoot(key: int)                            // the tree was empty
    | GoLeft(key: int, at: int, from: Position)       // key < node, descend left
    | InsertedLeft(key: int, parent: int)             // new leaf as left child
    | GoRight(key: int, at: int, from: Position)      // key > node, descend right
    | InsertedRight(key: int, parent: int)            // new leaf as right child
    | DuplicateGoRight(key: int)                      // equal key admitted, descend right
    | InsertedDuplicateRight(key: int, parent: int)   // duplicate leaf as right child
    | DuplicateRejected(key: int)                     // equal key refused
    // search
    | NotFound(key: int)                              // reached an absent child
    | Visit(from: Position, at: int)                  // examining a node
    | Found(key: int, from: Position)                 // node holds the key
    | SearchLeft(key: int, at: int)                   // key < node, search left
    | SearchRight(key: int, at: int)                  // key > node, search right
    // delete
    | DeleteNotFound(key: int)                        // reached an absent child
    | SeekLeft(key: int, at: int)                     // key < node, seek left
    | SeekRight(key: int, at: int)                    // key > node, seek right
    | TargetFound(key: int)                           // node holds the key
    | ReplaceWithRight(key: int)                      // no left child: splice in the right one
    | ReplaceWithLeft(key: int)                       // no right child: splice in the left one
    | TwoChildren(key: int)                           // look for the in-order successor
    | SuccessorFound(successor: int)
    | KeyReplaced(key: int, successor: int)           // node now holds the successor's key

  /** A result together with the steps recorded while computing it. */
  datatype Traced<T> = Traced(value: T, steps: seq<Step>)

  function Last(s: seq<Step>): Step
    requires s != []
  {
    s[|s| - 1]
  }

  lemma LastAppend(a: seq<Step>, b: seq<Step>)
    requires b != []
    ensures Last(a + b) == Last(b)
  {
  }

  lemma InAppend(a: seq<Step>, b: seq<Step>, e: Step)
    requires e in b
    ensures e in a + b
  {
  }

  lemma InPrefix(a: seq<Step>, b: seq<Step>, e: Step)
    requires e in a
    ensures e in a + b
  {
  }

  /** The events that end an accepted insertion. */
  predicate IsInsertion(e: Step)
  {
    e.InsertedLeft? || e.InsertedRight? || e.InsertedDuplicateRight? || e.CreateRoot?
  }
}
