/** The working memory of a traversal. */
module Contexts {
  import opened SortedBuffers
  import opened MaxHeaps
  import opened GrowingHashSets
  import opened BeamStates
  import opened BeamLists

  /** The working memory a thread reuses from one request to the next. */
  class Context {
    const top: SortedBuffer
    const next: MaxHeap
    const visits: GrowingHashSet

    ghost predicate Valid()
      reads this, top, next, visits, top.elements, next.elements, visits.slots
    {
      top.elements != next.elements && top.Valid() && next.Valid() && visits.Valid()
    }

    /** The containers, and the arrays they own at the moment. */
    ghost function Footprint(): set<object>
      reads this, top, next, visits
    {
      {top, next, visits, top.elements, next.elements, visits.slots}
    }

    constructor (hash: nat -> nat)
      ensures Valid() && fresh(Footprint())
    {
      top := new SortedBuffer();
      next := new MaxHeap();
      visits := new GrowingHashSet(hash);
    }

    /** The containers hold what `s` says. */
    ghost predicate Shows(t: Traversal, s: State)
      reads top, next, visits
    {
      visits.contents == s.visited && Shown(t, s, top.contents, next.contents)
    }
  }

  /** `buffer` and its array are none of the context's. */
  ghost predicate Apart(buffer: SortedBuffer, ctx: Context)
    reads buffer, ctx, ctx.top, ctx.next, ctx.visits
  {
    && buffer != ctx.top && buffer as object != ctx.next && buffer as object != ctx.visits
    && buffer.elements != ctx.top.elements && buffer.elements != ctx.next.elements
    && buffer.elements as object != ctx.visits.slots
  }
}
