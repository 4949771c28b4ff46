/** The scroll synchronisation of the three panes: which pane the pointer is
    over, where each pane is scrolled to, and what a scroll notification does. */
module ScrollSync {
  import opened Alignment

  datatype Option<T> = None | Some(value: T)

  /** The panes after a synchronisation pass from `source`: the source pane
      stays where it is and each other pane is sent to its target for the
      source pane's first visible line. */
  function SyncPass(top: PaneLines, source: Pane, parts: seq<Part>): (r: PaneLines)
    ensures r.At(source) == top.At(source)
    ensures forall v :: v != source ==> r.At(v) == Align(parts, source, top.At(source), AsWritten).At(v)
  {
    Align(parts, source, top.At(source), AsWritten).With(source, top.At(source))
  }

  /** A second pass from the same pane changes nothing: the source pane did not
      move, so its line and hence the targets are the same. */
  lemma SyncPassIdempotent(top: PaneLines, source: Pane, parts: seq<Part>)
    ensures SyncPass(SyncPass(top, source, parts), source, parts) == SyncPass(top, source, parts)
  {
  }

  /** The panes of the page. `top` is each pane's first visible line (its
      scroll offset in lines) and `activePane` the pane under the pointer. */
  class Panes {
    var activePane: Option<Pane>
    var top: PaneLines

    constructor ()
      ensures activePane == None && top == Zero
    {
      activePane := None;
      top := Zero;
    }

    /** The pointer enters `pane`. */
    method MouseEnter(pane: Pane)
      modifies this`activePane
      ensures activePane == Some(pane)
    {
      activePane := Some(pane);
    }

    /** The pointer leaves a pane. */
    method MouseLeave()
      modifies this`activePane
      ensures activePane == None
    {
      activePane := None;
    }

    /** `handleScroll`: compute the targets for the source pane's first visible
      line and scroll every other pane to its target. */
    method HandleScroll(source: Pane, parts: seq<Part>)
      modifies this`top
      ensures top == SyncPass(old(top), source, parts)
    {
      var t := Targets(parts, source, top.At(source));
      if source != Original {
        top := top.(original := t.original);
      }
      if source != Modified {
        top := top.(modified := t.modified);
      }
      if source != Diff {
        top := top.(diff := t.diff);
      }
    }

    /** A pane's `onScroll` handler: it synchronises only while the pointer is
      over that pane. */
    method OnScroll(pane: Pane, parts: seq<Part>)
      modifies this`top
      ensures top == if activePane == Some(pane) then SyncPass(old(top), pane, parts) else old(top)
    {
      if activePane == Some(pane) {
        HandleScroll(pane, parts);
      }
    }

    /** A scroll of `pane` to `line` and the notifications it sets off: the
      pane's own, then one from each pane whose position the pass changed.
      Those later notifications come from panes the pointer is not over, so
      the panes end after at most one pass. */
    method UserScroll(pane: Pane, line: nat, parts: seq<Part>)
      modifies this`top
      ensures top == if activePane == Some(pane) then SyncPass(old(top).With(pane, line), pane, parts)
                     else old(top).With(pane, line)
    {
      top := top.With(pane, line);
      var scrolled := top;
      OnScroll(pane, parts);
      if top.original != scrolled.original {
        OnScroll(Original, parts);
      }
      if top.modified != scrolled.modified {
        OnScroll(Modified, parts);
      }
      if top.diff != scrolled.diff {
        OnScroll(Diff, parts);
      }
    }
  }
}
