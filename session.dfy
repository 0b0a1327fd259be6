/** The BST object the host holds: its root, its duplicate policy, and the
    operations that update the root in place, lay the tree out again and
    return their trace. */
module Session {
  import opened Trees
  import opened Trace
  import opened Positions
  import Engine

  class BST {
    var root: Tree
    var allowDuplicates: bool

    /** Between operations the tree is ordered and its positions are those
        a fresh layout gives it. */
    ghost predicate Valid()
      reads this
    {
      Ordered(root) && LaidOut(root)
    }

    constructor (allowDuplicates: bool)
      ensures Valid() && root == Nil && this.allowDuplicates == allowDuplicates
    {
      root := Nil;
      this.allowDuplicates := allowDuplicates;
    }

    /** Recomputes every node position from the current shape; an empty tree
        is left untouched. */
    method CalculatePositions()
      modifies this`root
      ensures root == Layout(old(root))
      ensures LaidOut(root) && SameShape(root, old(root))
    {
      if root == Nil {
        return;
      }
      var height := GetHeight();
      var width := Pow2(height);
      root := Assign(root, 0, width, height - 1);
    }

    /** Inserts `k` under the current duplicate policy. */
    method Insert(k: int) returns (steps: seq<Step>)
      requires Valid()
      modifies this`root
      ensures Valid()
      ensures root == Layout(Engine.Insert(old(root), k, allowDuplicates).value)
      ensures steps == Engine.Insert(old(root), k, allowDuplicates).steps
      ensures old(root) == Nil ==> steps == [CreateRoot(k)]
      ensures if allowDuplicates || k !in Keys(old(root))
              then Keys(root) == Keys(old(root)) + multiset{k} && Count(root) == Count(old(root)) + 1
                   && IsInsertion(Last(steps))
              else root == old(root) && Last(steps) == DuplicateRejected(k)
      ensures !allowDuplicates && StrictlyOrdered(old(root)) ==> StrictlyOrdered(root)
    {
      var r := Engine.Insert(root, k, allowDuplicates);
      Engine.InsertOutcome(root, k, allowDuplicates);
      Engine.InsertOrdered(root, k, allowDuplicates);
      if !(allowDuplicates || k !in Keys(root)) {
        LayoutKeepsLaidOut(root);
      }
      root := r.value;
      steps := r.steps;
      CalculatePositions();
      SameShapeQueries(root, r.value);
      SameShapeOrdered(root, r.value);
    }

    /** Looks `k` up without changing anything. */
    method Search(k: int) returns (found: bool, steps: seq<Step>)
      requires Valid()
      ensures found <==> k in Keys(root)
      ensures steps != []
      ensures found ==> Last(steps).Found? && Last(steps).key == k
      ensures !found ==> Last(steps) == NotFound(k)
      ensures Traced(found, steps) == Engine.Search(root, k, Root)
    {
      var r := Engine.Search(root, k, Root);
      Engine.SearchFindsStoredKey(root, k, Root);
      found, steps := r.value, r.steps;
    }

    /** Deletes one node holding `k`, if the descent finds one. */
    method Delete(k: int) returns (steps: seq<Step>)
      requires Valid()
      modifies this`root
      ensures Valid()
      ensures root == Layout(Engine.Delete(old(root), k).value)
      ensures steps == Engine.Delete(old(root), k).steps
      ensures k !in Keys(old(root)) ==> root == old(root) && Last(steps) == DeleteNotFound(k)
      ensures k in Keys(old(root)) ==>
                && Keys(root) == Keys(old(root)) - multiset{k}
                && Count(root) == Count(old(root)) - 1
                && TargetFound(k) in steps
      ensures StrictlyOrdered(old(root)) ==> StrictlyOrdered(root)
    {
      var r, s := Engine.DeleteNode(root, k);
      Engine.DeleteOrdered(root, k);
      if k in Keys(root) {
        Engine.DeletePresent(root, k);
      } else {
        Engine.DeleteAbsent(root, k);
        LayoutKeepsLaidOut(root);
      }
      if StrictlyOrdered(root) {
        Engine.DeleteStrictlyOrdered(root, k);
      }
      root := r;
      steps := s;
      CalculatePositions();
      SameShapeQueries(root, r);
      SameShapeOrdered(root, r);
    }

    /** The three traversals of the current tree. */
    method GetTraversals() returns (inorder: seq<int>, preorder: seq<int>, postorder: seq<int>)
      requires Valid()
      ensures inorder == Inorder(root) && preorder == Preorder(root) && postorder == Postorder(root)
      ensures |inorder| == |preorder| == |postorder| == Count(root)
      ensures multiset(inorder) == multiset(preorder) == multiset(postorder) == Keys(root)
      ensures NonDecreasing(inorder)
      ensures StrictlyOrdered(root) ==> Ascending(inorder)
    {
      inorder, preorder, postorder := Inorder(root), Preorder(root), Postorder(root);
      InorderKeys(root);
      PreorderKeys(root);
      PostorderKeys(root);
      InorderNonDecreasing(root);
      if StrictlyOrdered(root) {
        InorderAscending(root);
      }
    }

    method GetHeight() returns (h: nat)
      ensures h == Height(root)
      ensures h <= Count(root)
      ensures h == 0 <==> root == Nil
    {
      h := Height(root);
      HeightAtMostCount(root);
    }

    method GetNodeCount() returns (n: nat)
      ensures n == Count(root) && n == |Keys(root)|
    {
      n := Count(root);
      CountIsSize(root);
    }

    /** Changes the policy for later inserts; the tree is not touched. */
    method SetAllowDuplicates(allow: bool)
      requires Valid()
      modifies this`allowDuplicates
      ensures Valid() && allowDuplicates == allow
    {
      allowDuplicates := allow;
    }

    /** Discards every node, keeping the current policy. */
    method Reset()
      modifies this`root
      ensures Valid() && root == Nil
    {
      root := Nil;
    }
  }
}
