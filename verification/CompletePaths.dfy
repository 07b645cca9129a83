/** Complete paths, the answers of the engine: walks from a reference to a definition on empty stacks. */
module CompletePaths {
  import opened Wrappers
  import opened Graphs
  import opened Patterns
  import opened Unification
  import opened PartialPaths
  import opened Exactness
  import opened Composition
  import opened Cyclicity
  import opened Settling
  import opened Stitching
  import opened CycleDetection

  predicate StartsAtReference(g: Graph, p: PartialPath) {
    g.Kind(p.startNode).IsReference() && p.symbolPre.symbols == [] && p.scopePre.scopes == []
  }

  predicate EndsAtDefinition(g: Graph, p: PartialPath) {
    g.Kind(p.endNode).IsDefinition() && p.symbolPost.symbols == []
  }

  predicate IsComplete(g: Graph, p: PartialPath) {
    StartsAtReference(g, p) && EndsAtDefinition(g, p)
  }

  /** A walk that resolves a reference to a definition. */
  ghost predicate Resolves(g: Graph, w: Walk) {
    && g.Kind(w[0]).IsReference() && g.Kind(Last(w)).IsDefinition()
    && Run(g, w, Stacks([], [])).Some?
    && Run(g, w, Stacks([], [])).value.symbols == []
  }

  /**
   Looking for complete paths from a reference: stitching fragments onto the initial path succeeds exactly
   when their journey can be run from empty stacks and finds a scope at every jump; the path is then complete
   exactly when the journey resolves the reference to a definition.
   */
  lemma CompletePathsResolve(g: Graph, n: NodeHandle, fragments: seq<Fragment>, us: seq<Walk>, depth: nat)
    requires g.AttachedScopesExist() && g.Kind(n).IsReference()
    requires DescribeAll(g, fragments, us) && Consecutive(g, [n], us, Nowhere)
    ensures ReferencePath(g, n).Ok?
    ensures var r := Stitch(g, ReferencePath(g, n).value, fragments, depth);
            var w := Journey(g, [n], us, Nowhere);
            && (r.Ok? <==> Run(g, w, Stacks([], [])).Some? && !g.Kind(Last(w)).JumpTo?)
            && (r.Ok? ==> Summary(g, r.value, w, Nowhere) && Denotes(g, r.value, w, Nowhere))
            && (r.Ok? ==> (IsComplete(g, r.value) <==> Resolves(g, w)))
  {
    hide Stitch, Journey, Consecutive, Summary, Describes, ReferencePath;
    InitialSummary(g, n, Nowhere);
    var initial := ReferencePath(g, n).value;
    var w := Journey(g, [n], us, Nowhere);
    StitchSummary(g, initial, [n], fragments, us, depth, Nowhere);
    JourneyNeverWaits(g, n, us);
    var r := Stitch(g, initial, fragments, depth);
    if r.Ok? {
      StitchFromEmptyStacks(g, initial, [n], fragments, us, depth, Nowhere);
      CompleteOrNot(g, r.value, w);
    }
  }

  /** From empty stacks, a journey that can be run has followed its last jump, or is stuck there. */
  lemma JourneyNeverWaits(g: Graph, n: NodeHandle, us: seq<Walk>)
    requires !g.Kind(n).JumpTo? && Consecutive(g, [n], us, Nowhere)
    ensures var w := Journey(g, [n], us, Nowhere);
            Passable(g, w, Nowhere) <==> Run(g, w, Stacks([], [])).Some? && !g.Kind(Last(w)).JumpTo?
  {
    var w := Journey(g, [n], us, Nowhere);
    if Passable(g, w, Nowhere) && us != [] {
      var v := Splice(Journey(g, [n], us[..|us| - 1], Nowhere), us[|us| - 1]);
      SettledPassable(g, v, Nowhere);
      if g.Kind(Last(v)).JumpTo? {
        NowhereUndecided(g, v);
        RunExtend(g, v, Last(w), Stacks([], []));
      }
    }
    if Run(g, w, Stacks([], [])).Some? {
      assert Nowhere.Admits(Stacks([], []));
    }
  }

  lemma CompleteOrNot(g: Graph, p: PartialPath, w: Walk)
    requires Summary(g, p, w, Nowhere) && FromEmptyStacks(p) && g.Kind(w[0]).IsReference()
    ensures Denotes(g, p, w, Nowhere) && (IsComplete(g, p) <==> Resolves(g, w))
  {
    ExactDenotes(g, p, w, Nowhere);
    ClosedPost(g, p, w);
  }

  /** The postcondition of a path from empty stacks is the stacks that its walk ends with. */
  lemma ClosedPost(g: Graph, p: PartialPath, w: Walk)
    requires Sound(g, p, w, Nowhere) && FromEmptyStacks(p)
    ensures Run(g, w, Stacks([], [])) == Some(After(p, NOTHING))
    ensures |After(p, NOTHING).symbols| == |p.symbolPost.symbols|
  {
    PostVariablesOccurInPre(g, p, w, Nowhere);
    VariableOccurs(p.symbolPost);
    assert Run(g, w, Before(p, NOTHING)) == Some(After(p, NOTHING));
  }
}
