/** Connecting a node: on each of its levels, search, choose neighbours, link to them and back. */
module ConnectMethods {
  import opened Candidates
  import opened Numbers
  import opened Graph
  import opened Refine
  import opened Links
  import opened LinkMethods
  import opened BeamStates
  import opened BeamLists
  import opened Contexts
  import opened BeamSearch
  import opened SortedBuffers
  import opened GrowingHashSets
  import opened Connecting

  lemma SearchRereadable(k: Connection, nodes: seq<Node>, level: nat, start: nat)
    requires k.Valid() && UntouchedTo(k, nodes, level) && start in k.Region(level)
    ensures Rereadable(k.Search(nodes, level, start))
  {
    assert k.base[start].level >= level;
  }

  /** Leaves the result list of the level's search in the context; `buffer` is set apart. */
  method SearchInBase(ctx: Context, ghost buffer: SortedBuffer, k: Connection, nodes: seq<Node>, level: nat, start: nat)
    returns (ghost s: State)
    requires ctx.Valid() && k.Valid() && |nodes| <= FREE
    requires buffer.Valid() && Apart(buffer, ctx)
    requires UntouchedTo(k, nodes, level) && start in k.Region(level)
    modifies ctx.Footprint()
    ensures ctx.Valid()
    ensures fresh(ctx.top.elements) || ctx.top.elements == old(ctx.top.elements)
    ensures fresh(ctx.next.elements) || ctx.next.elements == old(ctx.next.elements)
    ensures fresh(ctx.visits.slots) || ctx.visits.slots == old(ctx.visits.slots)
    ensures buffer.Valid() && buffer.elements == old(buffer.elements) && Apart(buffer, ctx)
    ensures Finished(k.Search(k.base, level, start), s) && Lists(ctx.top.contents, s.kept, k.valueDist)
  {
    RegionClosed(k, nodes, level, start);
    SearchRereadable(k, nodes, level, start);
    var t := Traversal(nodes, level, start, k.limit, k.valueDist, k.Allow(), ReachSlots(k.base, level, start));
    s := SearchLevelApart(ctx, buffer, t, !k.added, k.cb);
    FinishedInBase(k, nodes, level, start, s);
  }

  method SearchLevelApart(ctx: Context, ghost buffer: SortedBuffer, t: Traversal, rereads: bool, cb: nat) returns (ghost s: State)
    requires ctx.Valid() && t.Valid() && |t.nodes| <= FREE && (rereads ==> Rereadable(t))
    requires buffer.Valid() && Apart(buffer, ctx)
    modifies ctx.Footprint()
    ensures ctx.Valid()
    ensures fresh(ctx.top.elements) || ctx.top.elements == old(ctx.top.elements)
    ensures fresh(ctx.next.elements) || ctx.next.elements == old(ctx.next.elements)
    ensures fresh(ctx.visits.slots) || ctx.visits.slots == old(ctx.visits.slots)
    ensures buffer.Valid() && buffer.elements == old(buffer.elements) && Apart(buffer, ctx)
    ensures Finished(t, s) && Lists(ctx.top.contents, s.kept, t.dist)
  {
    assert buffer !in ctx.Footprint() && buffer.elements !in ctx.Footprint();
    s := SearchLevel(ctx, t, rereads, cb);
  }

  /** Prunes the result list to the chosen neighbours. */
  method PruneTop(ctx: Context, ghost buffer: SortedBuffer, k: Connection) returns (chosen: seq<nat>)
    requires ctx.Valid() && k.Valid() && DistinctSlots(ctx.top.contents)
    requires buffer.Valid() && Apart(buffer, ctx)
    modifies ctx.top, ctx.top.elements
    ensures ctx.Valid() && ctx.top.elements == old(ctx.top.elements)
    ensures buffer.Valid() && buffer.elements == old(buffer.elements) && Apart(buffer, ctx)
    ensures chosen == ChosenFrom(k, old(ctx.top.contents))
  {
    RefineTop(ctx.top, k.c, k.Pruning());
    chosen := SlotsOf(ctx.top.elements, ctx.top.size);
  }

  /** Searches the level and prunes the result list to the chosen neighbours. */
  method Choose(ctx: Context, ghost buffer: SortedBuffer, k: Connection, nodes: seq<Node>, level: nat, start: nat)
    returns (chosen: seq<nat>, ghost s: State, ghost found: seq<Candidate>)
    requires ctx.Valid() && k.Valid() && |nodes| <= FREE
    requires buffer.Valid() && Apart(buffer, ctx)
    requires UntouchedTo(k, nodes, level) && start in k.Region(level)
    modifies ctx.Footprint()
    ensures ctx.Valid()
    ensures fresh(ctx.top.elements) || ctx.top.elements == old(ctx.top.elements)
    ensures fresh(ctx.next.elements) || ctx.next.elements == old(ctx.next.elements)
    ensures fresh(ctx.visits.slots) || ctx.visits.slots == old(ctx.visits.slots)
    ensures buffer.Valid() && buffer.elements == old(buffer.elements) && Apart(buffer, ctx)
    ensures Finished(k.Search(k.base, level, start), s) && Lists(found, s.kept, k.valueDist)
    ensures chosen == ChosenFrom(k, found)
  {
    s := SearchInBase(ctx, buffer, k, nodes, level, start);
    found := ctx.top.contents;
    chosen := PruneTop(ctx, buffer, k);
  }

  /** Links the slot to its chosen neighbours at one level, and back. */
  method Link(topForRefine: SortedBuffer, ghost ctx: Context, k: Connection, nodes: seq<Node>, level: nat, chosen: seq<nat>)
    returns (r: seq<Node>)
    requires topForRefine.Valid() && k.cb < topForRefine.elements.Length && k.Valid()
    requires ctx.Valid() && Apart(topForRefine, ctx)
    requires UntouchedTo(k, nodes, level) && level <= k.base[k.slot].level
    requires ListOk(k.base, k.slot, level, chosen, Cap(level, k.c, k.cb))
    modifies topForRefine, topForRefine.elements
    ensures topForRefine.Valid() && topForRefine.elements == old(topForRefine.elements)
    ensures ctx.Valid() && Apart(topForRefine, ctx) && ctx.top.elements == old(ctx.top.elements)
    ensures ctx.next.elements == old(ctx.next.elements) && ctx.visits.slots == old(ctx.visits.slots)
    ensures GraphOk(r, k.c, k.cb)
    ensures Linked(nodes, r, k.slot, level, chosen, |chosen|, k.c, k.cb, k.valueDist, k.between)
  {
    ListOkSkeleton(k.base, nodes, k.slot, level, chosen, Cap(level, k.c, k.cb));
    LinkedFirst(nodes, k.slot, level, chosen, k.c, k.cb, k.valueDist, k.between);
    var linked := WithList(nodes, k.slot, level, chosen);
    ListOkSkeleton(nodes, linked, k.slot, level, chosen, Cap(level, k.c, k.cb));
    r := FormReverseLinks(topForRefine, linked, nodes, k.slot, level, chosen, k.c, k.cb, k.valueDist, k.between);
  }

  lemma ChosenFits(k: Connection, level: nat, start: nat, s: State, found: seq<Candidate>)
    requires k.Valid() && start in k.Region(level)
    requires Finished(k.Search(k.base, level, start), s) && Lists(found, s.kept, k.valueDist)
    ensures ListOk(k.base, k.slot, level, ChosenFrom(k, found), Cap(level, k.c, k.cb))
  {
    ChosenOk(k, level, start, s, found);
  }

  /** Searches one level, chooses neighbours, and links the slot to them and back. */
  method ChooseAndLink(ctx: Context, topForRefine: SortedBuffer, k: Connection, nodes: seq<Node>, level: nat, start: nat)
    returns (r: seq<Node>, chosen: seq<nat>, ghost s: State, ghost found: seq<Candidate>)
    requires ctx.Valid() && k.Valid() && |nodes| <= FREE && level <= k.base[k.slot].level
    requires topForRefine.Valid() && k.cb < topForRefine.elements.Length && Apart(topForRefine, ctx)
    requires UntouchedTo(k, nodes, level) && start in k.Region(level)
    modifies ctx.Footprint(), topForRefine, topForRefine.elements
    ensures ctx.Valid()
    ensures fresh(ctx.top.elements) || ctx.top.elements == old(ctx.top.elements)
    ensures fresh(ctx.next.elements) || ctx.next.elements == old(ctx.next.elements)
    ensures fresh(ctx.visits.slots) || ctx.visits.slots == old(ctx.visits.slots)
    ensures topForRefine.Valid() && topForRefine.elements == old(topForRefine.elements) && Apart(topForRefine, ctx)
    ensures LevelWork(k, nodes, r, level, start, chosen, s, found)
  {
    chosen, s, found := Choose(ctx, topForRefine, k, nodes, level, start);
    ChosenFits(k, level, start, s, found);
    r := Link(topForRefine, ctx, k, nodes, level, chosen);
  }

  /** Connects the slot at one level, and answers where to start on the level below. */
  method ConnectLevel(ctx: Context, topForRefine: SortedBuffer, k: Connection, nodes: seq<Node>, ghost top: nat, level: nat,
                      start: nat, ghost first: nat)
    returns (r: seq<Node>, next: nat)
    requires ctx.Valid() && k.Valid() && |k.base| <= FREE && top <= k.base[k.slot].level
    requires topForRefine.Valid() && k.cb < topForRefine.elements.Length && Apart(topForRefine, ctx)
    requires ReadyFrom(k, nodes, top, level, first, start)
    modifies ctx.Footprint(), topForRefine, topForRefine.elements
    ensures ctx.Valid()
    ensures fresh(ctx.top.elements) || ctx.top.elements == old(ctx.top.elements)
    ensures fresh(ctx.next.elements) || ctx.next.elements == old(ctx.next.elements)
    ensures fresh(ctx.visits.slots) || ctx.visits.slots == old(ctx.visits.slots)
    ensures topForRefine.Valid() && topForRefine.elements == old(topForRefine.elements) && Apart(topForRefine, ctx)
    ensures ReadyFrom(k, r, top, level - 1, first, next)
  {
    ReadyFromBasics(k, nodes, top, level, first, start);
    var chosen;
    ghost var s, found;
    r, chosen, s, found := ChooseAndLink(ctx, topForRefine, k, nodes, level, start);
    LevelWorkReady(k, nodes, r, top, level, first, start, chosen, s, found);
    next := if k.added || chosen != [] then chosen[0] else start;
  }

  /** Connects the slot on all levels from `top` down, from where the first search is ready to start. */
  method ConnectDown(ctx: Context, topForRefine: SortedBuffer, k: Connection, top: nat, start: nat) returns (r: seq<Node>, ghost last: nat)
    requires ctx.Valid() && k.Valid() && |k.base| <= FREE && top <= k.base[k.slot].level
    requires topForRefine.Valid() && k.cb < topForRefine.elements.Length && Apart(topForRefine, ctx)
    requires ReadyFrom(k, k.base, top, top, start, start)
    modifies ctx.Footprint(), topForRefine, topForRefine.elements
    ensures ctx.Valid()
    ensures fresh(ctx.top.elements) || ctx.top.elements == old(ctx.top.elements)
    ensures fresh(ctx.next.elements) || ctx.next.elements == old(ctx.next.elements)
    ensures fresh(ctx.visits.slots) || ctx.visits.slots == old(ctx.visits.slots)
    ensures topForRefine.Valid() && topForRefine.elements == old(topForRefine.elements) && Apart(topForRefine, ctx)
    ensures ReadyFrom(k, r, top, -1, start, last)
  {
    r := k.base;
    var closest := start;
    for level := top + 1 downto 0
      invariant ctx.Valid()
      invariant fresh(ctx.top.elements) || ctx.top.elements == old(ctx.top.elements)
      invariant fresh(ctx.next.elements) || ctx.next.elements == old(ctx.next.elements)
      invariant fresh(ctx.visits.slots) || ctx.visits.slots == old(ctx.visits.slots)
      invariant topForRefine.Valid() && topForRefine.elements == old(topForRefine.elements) && Apart(topForRefine, ctx)
      invariant ReadyFrom(k, r, top, level - 1, start, closest)
    {
      r, closest := ConnectLevel(ctx, topForRefine, k, r, top, level, closest, start);
    }
    last := closest;
  }

  /** Connects the slot on all levels from `top` down, the first search starting at `start`. */
  method ConnectLevels(ctx: Context, topForRefine: SortedBuffer, k: Connection, top: nat, start: nat) returns (r: seq<Node>)
    requires ctx.Valid() && k.Valid() && |k.base| <= FREE && top <= k.base[k.slot].level
    requires topForRefine.Valid() && k.cb < topForRefine.elements.Length && Apart(topForRefine, ctx)
    requires start in k.Region(top)
    modifies ctx.Footprint(), topForRefine, topForRefine.elements
    ensures ctx.Valid() && fresh(ctx.Footprint() - old(ctx.Footprint()))
    ensures topForRefine.Valid() && topForRefine.elements == old(topForRefine.elements) && Apart(topForRefine, ctx)
    ensures FullyConnected(k, r, top, start)
  {
    ReadyFirst(k, top, start);
    ghost var last;
    r, last := ConnectDown(ctx, topForRefine, k, top, start);
    ReadyDone(k, r, top, start, last);
  }
}
