/** Whole trees built with the builder and then resolved: what a grammar
    action for `ANY x IN ... SATISFIES ...` does to its condition. */
module Scenarios {
  import opened CStrings
  import opened TaggedValue
  import opened TreeBuilder
  import opened PathResolver

  /** The arrays of `["NOT", ["=", [".x.a"], ".x.c"]]`. */
  method BuildCondition() returns (root: MArray, cmp: MArray, ref: MArray)
    ensures fresh(root) && fresh(cmp) && fresh(ref)
    ensures root != cmp && root != ref && cmp != ref
    ensures root.elems == [StringSlot("NOT"), ArraySlot(cmp)]
    ensures cmp.elems == [StringSlot("="), ArraySlot(ref), StringSlot(".x.c")]
    ensures ref.elems == [StringSlot(".x.a")]
  {
    CStrOfCString(".x.a");
    CStrOfCString(".x.c");
    CStrOfCString("=");
    CStrOfCString("NOT");
    ref := ArrayWithString(".x.a");
    cmp := Op2("=", MutableArray(ref), Str(".x.c"));
    root := Op1("NOT", MutableArray(cmp));
  }

  /** The shape of that condition, array by array. */
  ghost function ConditionShape(root: MArray, cmp: MArray, ref: MArray): map<MArray, seq<Slot>>
  {
    map[root := [StringSlot("NOT"), ArraySlot(cmp)],
        cmp := [StringSlot("="), ArraySlot(ref), StringSlot(".x.c")],
        ref := [StringSlot(".x.a")]]
  }

  /** A rank for the condition: each array above the arrays it holds. */
  ghost function ConditionRank(root: MArray, cmp: MArray, ref: MArray): map<MArray, nat>
  {
    map[root := 2, cmp := 1, ref := 0]
  }

  /** The condition is a tree. */
  lemma ConditionRanked(root: MArray, cmp: MArray, ref: MArray)
    requires root != cmp && root != ref && cmp != ref
    ensures Ranked(ConditionShape(root, cmp, ref), ConditionRank(root, cmp, ref))
  {
  }

  /** The built arrays hold exactly that shape. */
  lemma ConditionConforms(root: MArray, cmp: MArray, ref: MArray)
    requires root != cmp && root != ref && cmp != ref
    requires root.elems == [StringSlot("NOT"), ArraySlot(cmp)]
    requires cmp.elems == [StringSlot("="), ArraySlot(ref), StringSlot(".x.c")]
    requires ref.elems == [StringSlot(".x.a")]
    ensures Conforms(ConditionShape(root, cmp, ref))
    ensures Snapshot(ConditionShape(root, cmp, ref)) == ConditionShape(root, cmp, ref)
  {
  }

  /** From the root the walk reaches both inner arrays. */
  lemma ConditionReaches(root: MArray, cmp: MArray, ref: MArray)
    requires root != cmp && root != ref && cmp != ref
    requires Ranked(ConditionShape(root, cmp, ref), ConditionRank(root, cmp, ref))
    ensures var g := ConditionShape(root, cmp, ref);
      var rank := ConditionRank(root, cmp, ref);
      Reaches(g, rank, root, cmp) && Reaches(g, rank, root, ref)
  {
    var g := ConditionShape(root, cmp, ref);
    var rank := ConditionRank(root, cmp, ref);
    assert Reaches(g, rank, cmp, ref) by {
      assert g[cmp][1] == ArraySlot(ref) && Reaches(g, rank, ref, ref);
      assert ReachedBefore(g, rank, cmp, 2, ref);
    }
    assert g[root][1] == ArraySlot(cmp);
    assert ReachedBefore(g, rank, root, 2, ref);
    assert ReachedBefore(g, rank, root, 2, cmp);
  }

  /** What retagging with `.x` does to each array of the condition: only
      `[".x.a"]` starts with a reference to `x`. */
  lemma ConditionRetags(cmp: MArray, ref: MArray)
    ensures Retag(".x", [StringSlot("NOT"), ArraySlot(cmp)]) == [StringSlot("NOT"), ArraySlot(cmp)]
    ensures Retag(".x", [StringSlot("="), ArraySlot(ref), StringSlot(".x.c")])
         == [StringSlot("="), ArraySlot(ref), StringSlot(".x.c")]
    ensures Retag(".x", [StringSlot(".x.a")]) == [StringSlot("?x.a")]
  {
    PathPrefixExamples();
    assert !HasPathPrefix("NOT", ".x") && !HasPathPrefix("=", ".x");
    assert ['?'] + ".x.a"[1..] == "?x.a";
    CStrOfCString("?x.a");
  }

  /** Walking `.x` over the condition turns `[".x.a"]` into `["?x.a"]` and
      changes nothing else. */
  lemma ConditionWalked(root: MArray, cmp: MArray, ref: MArray, after: map<MArray, seq<Slot>>)
    requires root != cmp && root != ref && cmp != ref
    requires Ranked(ConditionShape(root, cmp, ref), ConditionRank(root, cmp, ref))
    requires var g := ConditionShape(root, cmp, ref);
      Walked(".x", g, ConditionRank(root, cmp, ref), root, g, after)
    ensures var g := ConditionShape(root, cmp, ref);
      && after[root] == g[root] && after[cmp] == g[cmp]
      && after[ref] == [StringSlot("?x.a")]
  {
    ConditionReaches(root, cmp, ref);
    ConditionRetags(cmp, ref);
    var g := ConditionShape(root, cmp, ref);
    assert root in g && cmp in g && ref in g;
  }

  /** Substituting `x` in that condition: the reference written as an array,
      `[".x.a"]`, becomes `["?x.a"]` two levels down; the bare operand string
      `.x.c` is data and stays; the operators stay. */
  method NestedSubstitution() returns (root: MArray, cmp: MArray, ref: MArray)
    ensures root.elems == [StringSlot("NOT"), ArraySlot(cmp)]
    ensures cmp.elems == [StringSlot("="), ArraySlot(ref), StringSlot(".x.c")]
    ensures ref.elems == [StringSlot("?x.a")]
  {
    root, cmp, ref := BuildCondition();
    ghost var g := ConditionShape(root, cmp, ref);
    ghost var rank := ConditionRank(root, cmp, ref);
    ConditionRanked(root, cmp, ref);
    ConditionConforms(root, cmp, ref);
    SubstituteVariable("x", root, g, rank);
    assert ['.'] + "x" == ".x";
    ConditionWalked(root, cmp, ref, Snapshot(g));
  }
}
