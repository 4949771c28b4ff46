/** The line-alignment sweep of the scroll synchronisation: given the parts of a
    line diff and the first visible line of one pane, find the line each of the
    other two panes should show. */
module Alignment {
  import opened Lines

  /** One change object of the line diff: `added` parts exist only in the
      modified file, `removed` parts only in the original one, and parts with
      neither flag in both. `value` is the text of the part. */
  datatype Part = Part(added: bool, removed: bool, value: string)

  /** The three scrollable panes. */
  datatype Pane = Original | Modified | Diff

  /** One line number per pane: the sweep's running counters, its targets and
      the panes' first visible lines. */
  datatype PaneLines = PaneLines(original: nat, modified: nat, diff: nat)
  {
    function At(v: Pane): nat
    {
      match v
      case Original => original
      case Modified => modified
      case Diff => diff
    }

    /** These lines with the entry of pane `v` replaced by `n`. */
    function With(v: Pane, n: nat): (r: PaneLines)
      ensures r.At(v) == n
      ensures forall w :: w != v ==> r.At(w) == At(w)
    {
      match v
      case Original => this.(original := n)
      case Modified => this.(modified := n)
      case Diff => this.(diff := n)
    }
  }

  const Zero := PaneLines(0, 0, 0)

  /** A part's line count: `value.split('\n').length - 1`. */
  function LineCount(p: Part): (n: nat)
    ensures n == Newlines(p.value)
  {
    SplitCount(p.value);
    |Split(p.value)| - 1
  }

  /** Whether the text of `p` takes up lines of pane `v`. */
  predicate Shown(p: Part, v: Pane)
  {
    match v
    case Original => !p.added
    case Modified => !p.removed
    case Diff => true
  }

  /** The number of lines `p` takes up in pane `v`. */
  function Visible(p: Part, v: Pane): nat
  {
    if Shown(p, v) then LineCount(p) else 0
  }

  /** One step of the sweep's counters past part `p`: the original counter moves
      only on parts that are not `added`, the modified counter only on parts that
      are not `removed`, and the diff counter on every part. */
  function Advance(c: PaneLines, p: Part): (r: PaneLines)
    ensures forall v :: c.At(v) <= r.At(v)
    ensures r.original != c.original ==> !p.added
    ensures r.modified != c.modified ==> !p.removed
    ensures r.diff == c.diff + LineCount(p)
  {
    var n := LineCount(p);
    PaneLines(if p.added then c.original else c.original + n,
              if p.removed then c.modified else c.modified + n,
              c.diff + n)
  }

  /** The counters on reaching part `k`, i.e. after the parts before it. */
  function Before(parts: seq<Part>, k: nat): PaneLines
    requires k <= |parts|
  {
    if k == 0 then Zero else Advance(Before(parts, k - 1), parts[k - 1])
  }

  /** The range test of the sweep. The page tests a part's whole line count in
      every pane (`AsWritten`); `VisibleOnly` tests only the lines the part takes
      up in the source pane. */
  datatype Rule = AsWritten | VisibleOnly

  /** The length of the range that part `p` is tested on in source pane `v`. */
  function Width(p: Part, v: Pane, rule: Rule): nat
  {
    match rule
    case AsWritten => LineCount(p)
    case VisibleOnly => Visible(p, v)
  }

  /** Part `k`'s range in the source pane contains `line`. */
  predicate Hits(parts: seq<Part>, k: nat, source: Pane, line: nat, rule: Rule)
    requires k < |parts|
  {
    var start := Before(parts, k).At(source);
    start <= line < start + Width(parts[k], source, rule)
  }

  /** Part `k` is the first part whose range contains `line`. */
  predicate IsFirstHit(parts: seq<Part>, k: nat, source: Pane, line: nat, rule: Rule)
  {
    k < |parts| && Hits(parts, k, source, line, rule) &&
    forall j :: 0 <= j < k ==> !Hits(parts, j, source, line, rule)
  }

  /** The sweep from counters `c` over `parts`: the first part whose range holds
      `line` gives the targets, which are the counters of the other two panes on
      reaching that part; the source pane's own target stays 0, and so does
      every target when no part matches. */
  function Sweep(parts: seq<Part>, source: Pane, line: nat, rule: Rule, c: PaneLines): PaneLines
  {
    if parts == [] then Zero
    else if c.At(source) <= line < c.At(source) + Width(parts[0], source, rule) then c.With(source, 0)
    else Sweep(parts[1..], source, line, rule, Advance(c, parts[0]))
  }

  /** The targets for first visible line `line` of pane `source`. */
  function Align(parts: seq<Part>, source: Pane, line: nat, rule: Rule): PaneLines
  {
    Sweep(parts, source, line, rule, Zero)
  }

  /** The sweep of `handleScroll`: a loop over the parts with three running
      counters and three targets, leaving the loop at the first match. */
  method Targets(parts: seq<Part>, source: Pane, line: nat) returns (t: PaneLines)
    ensures t == Align(parts, source, line, AsWritten)
    ensures t.At(source) == 0
  {
    var originalLineCount: nat, modifiedLineCount: nat, diffLineCount: nat := 0, 0, 0;
    var targetOriginalLine: nat, targetModifiedLine: nat, targetDiffLine: nat := 0, 0, 0;
    assert parts[0..] == parts;
    for i := 0 to |parts|
      invariant PaneLines(originalLineCount, modifiedLineCount, diffLineCount) == Before(parts, i)
      invariant Sweep(parts[i..], source, line, AsWritten, Before(parts, i)) == Align(parts, source, line, AsWritten)
      invariant targetOriginalLine == targetModifiedLine == targetDiffLine == 0
    {
      var part := parts[i];
      var lines: nat := |Split(part.value)| - 1;
      assert lines == LineCount(part);
      SweepStep(parts, source, line, AsWritten, i);
      match source {
        case Original =>
          if originalLineCount <= line < originalLineCount + lines {
            targetModifiedLine := modifiedLineCount;
            targetDiffLine := diffLineCount;
            break;
          }
        case Modified =>
          if modifiedLineCount <= line < modifiedLineCount + lines {
            targetOriginalLine := originalLineCount;
            targetDiffLine := diffLineCount;
            break;
          }
        case Diff =>
          if diffLineCount <= line < diffLineCount + lines {
            targetOriginalLine := originalLineCount;
            targetModifiedLine := modifiedLineCount;
            break;
          }
      }
      if !part.added { originalLineCount := originalLineCount + lines; }
      if !part.removed { modifiedLineCount := modifiedLineCount + lines; }
      diffLineCount := diffLineCount + lines;
      assert Before(parts, i + 1) == Advance(Before(parts, i), part);
    }
    t := PaneLines(targetOriginalLine, targetModifiedLine, targetDiffLine);
  }

  // ---------------------------------------------------------------------------
  // The counters

  /** Every counter is non-decreasing along the parts. */
  lemma {:induction false} BeforeMonotone(parts: seq<Part>, i: nat, j: nat)
    requires i <= j <= |parts|
    ensures forall v :: Before(parts, i).At(v) <= Before(parts, j).At(v)
    decreases j
  {
    if i < j {
      BeforeMonotone(parts, i, j - 1);
    }
  }

  /** Passing part `k` moves the counter of pane `v` by the lines the part takes
      up in that pane. */
  lemma StepAt(parts: seq<Part>, k: nat, v: Pane)
    requires k < |parts|
    ensures Before(parts, k + 1).At(v) == Before(parts, k).At(v) + Visible(parts[k], v)
  {
    assert Before(parts, k + 1) == Advance(Before(parts, k), parts[k]);
  }

  /** The concatenated text of the parts that pane `v` shows. */
  function PaneText(parts: seq<Part>, v: Pane): string
  {
    if parts == [] then []
    else
      var last := parts[|parts| - 1];
      PaneText(parts[..|parts| - 1], v) + (if Shown(last, v) then last.value else [])
  }

  /** On reaching part `k`, each counter is the number of line feeds in the text
      its pane shows for the parts before `k`. */
  lemma {:induction false} BeforeCountsPaneText(parts: seq<Part>, k: nat, v: Pane)
    requires k <= |parts|
    ensures Before(parts, k).At(v) == Newlines(PaneText(parts[..k], v))
  {
    if k > 0 {
      BeforeCountsPaneText(parts, k - 1, v);
      assert parts[..k][..k - 1] == parts[..k - 1];
      var p := parts[k - 1];
      var extra := if Shown(p, v) then p.value else [];
      assert Advance(Before(parts, k - 1), p).At(v) == Before(parts, k - 1).At(v) + Newlines(extra);
    }
  }

  /** After the last part each counter is one less than the number of pieces
      `Split` gives for the pane's text. */
  lemma TotalsMatchRows(parts: seq<Part>, v: Pane)
    ensures |Split(PaneText(parts, v))| == Before(parts, |parts|).At(v) + 1
  {
    BeforeCountsPaneText(parts, |parts|, v);
    assert parts[..|parts|] == parts;
    SplitCount(PaneText(parts, v));
  }

  // ---------------------------------------------------------------------------
  // What the sweep finds

  /** One step of the sweep at part `i`: stop there on a hit, go on otherwise. */
  lemma SweepStep(parts: seq<Part>, source: Pane, line: nat, rule: Rule, i: nat)
    requires i < |parts|
    ensures Sweep(parts[i..], source, line, rule, Before(parts, i))
         == if Hits(parts, i, source, line, rule) then Before(parts, i).With(source, 0)
            else Sweep(parts[i + 1..], source, line, rule, Before(parts, i + 1))
  {
    assert parts[i..][0] == parts[i];
    assert parts[i..][1..] == parts[i + 1..];
  }

  lemma {:induction false} SweepReachesFirstHit(parts: seq<Part>, source: Pane, line: nat, rule: Rule, i: nat, k: nat)
    requires i <= k && IsFirstHit(parts, k, source, line, rule)
    ensures Sweep(parts[i..], source, line, rule, Before(parts, i)) == Before(parts, k).With(source, 0)
    decreases k - i
  {
    SweepStep(parts, source, line, rule, i);
    if i < k {
      assert !Hits(parts, i, source, line, rule);
      SweepReachesFirstHit(parts, source, line, rule, i + 1, k);
    }
  }

  lemma {:induction false} SweepMissesAll(parts: seq<Part>, source: Pane, line: nat, rule: Rule, i: nat)
    requires i <= |parts|
    requires forall j :: i <= j < |parts| ==> !Hits(parts, j, source, line, rule)
    ensures Sweep(parts[i..], source, line, rule, Before(parts, i)) == Zero
    decreases |parts| - i
  {
    if i < |parts| {
      SweepStep(parts, source, line, rule, i);
      assert !Hits(parts, i, source, line, rule);
      SweepMissesAll(parts, source, line, rule, i + 1);
    }
  }

  /** The first part whose range contains the line decides: the targets are the
      other panes' counters on reaching it, and the source pane's entry is 0. */
  lemma AlignFirstHit(parts: seq<Part>, source: Pane, line: nat, rule: Rule, k: nat)
    requires IsFirstHit(parts, k, source, line, rule)
    ensures Align(parts, source, line, rule) == Before(parts, k).With(source, 0)
    ensures forall v :: v != source ==> Align(parts, source, line, rule).At(v) == Before(parts, k).At(v)
  {
    assert parts[0..] == parts;
    SweepReachesFirstHit(parts, source, line, rule, 0, k);
  }

  /** When no part's range contains the line, every target keeps its initial 0. */
  lemma AlignNoHit(parts: seq<Part>, source: Pane, line: nat, rule: Rule)
    requires forall k :: 0 <= k < |parts| ==> !Hits(parts, k, source, line, rule)
    ensures Align(parts, source, line, rule) == Zero
  {
    assert parts[0..] == parts;
    SweepMissesAll(parts, source, line, rule, 0);
  }

  /** A part with no lines never matches. */
  lemma EmptyPartNeverHits(parts: seq<Part>, k: nat, source: Pane, line: nat)
    requires k < |parts| && LineCount(parts[k]) == 0
    ensures !Hits(parts, k, source, line, AsWritten)
    ensures !Hits(parts, k, source, line, VisibleOnly)
  {
  }

  /** Adding to the diff a prefix already has does not shift any counter. */
  lemma {:induction false} BeforeOfPrefix(parts: seq<Part>, rest: seq<Part>, k: nat)
    requires k <= |parts|
    ensures Before(parts + rest, k) == Before(parts, k)
  {
    if k > 0 {
      BeforeOfPrefix(parts, rest, k - 1);
      assert (parts + rest)[k - 1] == parts[k - 1];
    }
  }

  /** Once a part matches, the parts after it never affect the result. */
  lemma AlignIgnoresLaterParts(parts: seq<Part>, rest: seq<Part>, source: Pane, line: nat, rule: Rule, k: nat)
    requires IsFirstHit(parts, k, source, line, rule)
    ensures Align(parts + rest, source, line, rule) == Align(parts, source, line, rule)
  {
    forall j | 0 <= j <= k
      ensures Before(parts + rest, j) == Before(parts, j)
      ensures (parts + rest)[j] == parts[j]
    {
      BeforeOfPrefix(parts, rest, j);
    }
    forall j | 0 <= j <= k
      ensures Hits(parts + rest, j, source, line, rule) == Hits(parts, j, source, line, rule)
    {
    }
    assert IsFirstHit(parts + rest, k, source, line, rule);
    AlignFirstHit(parts + rest, source, line, rule, k);
    AlignFirstHit(parts, source, line, rule, k);
  }

  /** Two lines whose first matching part is the same get the same targets. */
  lemma SameFirstHitSameTargets(parts: seq<Part>, source: Pane, line1: nat, line2: nat, rule: Rule, k: nat)
    requires IsFirstHit(parts, k, source, line1, rule) && IsFirstHit(parts, k, source, line2, rule)
    ensures Align(parts, source, line1, rule) == Align(parts, source, line2, rule)
  {
    AlignFirstHit(parts, source, line1, rule, k);
    AlignFirstHit(parts, source, line2, rule, k);
  }

  /** Scrolling the source pane further down never moves a target up, as long
      as both lines match some part. */
  lemma AlignMonotone(parts: seq<Part>, source: Pane, line1: nat, line2: nat, rule: Rule, k1: nat, k2: nat)
    requires line1 <= line2
    requires IsFirstHit(parts, k1, source, line1, rule) && IsFirstHit(parts, k2, source, line2, rule)
    ensures k1 <= k2
    ensures forall v :: Align(parts, source, line1, rule).At(v) <= Align(parts, source, line2, rule).At(v)
  {
    if k2 < k1 {
      assert !Hits(parts, k2, source, line1, rule);
      BeforeMonotone(parts, k2, k1);
      assert false;
    }
    BeforeMonotone(parts, k1, k2);
    AlignFirstHit(parts, source, line1, rule, k1);
    AlignFirstHit(parts, source, line2, rule, k2);
  }

  /** Every part's range in any pane ends at or before the diff counter after it. */
  lemma {:induction false} RangeEndBelowDiffTotal(parts: seq<Part>, k: nat, v: Pane, rule: Rule)
    requires k < |parts|
    ensures Before(parts, k).At(v) + Width(parts[k], v, rule) <= Before(parts, |parts|).diff
    decreases |parts| - k
  {
    assert Before(parts, k).At(v) <= Before(parts, k).diff by {
      CountersBoundedByDiff(parts, k);
    }
    assert Width(parts[k], v, rule) <= LineCount(parts[k]);
    assert Before(parts, k + 1).diff == Before(parts, k).diff + LineCount(parts[k]);
    BeforeMonotone(parts, k + 1, |parts|);
    assert Before(parts, k + 1).At(Diff) <= Before(parts, |parts|).At(Diff);
  }

  /** The diff pane shows every line, so its counter bounds the other two. */
  lemma {:induction false} CountersBoundedByDiff(parts: seq<Part>, k: nat)
    requires k <= |parts|
    ensures Before(parts, k).original <= Before(parts, k).diff
    ensures Before(parts, k).modified <= Before(parts, k).diff
  {
    if k > 0 {
      CountersBoundedByDiff(parts, k - 1);
    }
  }

  /** As written, a line at or past the diff pane's total line count gets
      all-zero targets whatever the source pane: a part is tested on its whole
      line count, so in the original or modified pane a trailing `added` or
      `removed` part still holds lines past that pane's own end. */
  lemma AlignPastEnd(parts: seq<Part>, source: Pane, line: nat)
    requires line >= Before(parts, |parts|).diff
    ensures Align(parts, source, line, AsWritten) == Zero
  {
    forall k | 0 <= k < |parts|
      ensures !Hits(parts, k, source, line, AsWritten)
    {
      RangeEndBelowDiffTotal(parts, k, source, AsWritten);
    }
    AlignNoHit(parts, source, line, AsWritten);
  }

  /** Counting only shown lines, a line at or past the source pane's own total
      gets all-zero targets. */
  lemma VisibleOnlyPastEnd(parts: seq<Part>, source: Pane, line: nat)
    requires line >= Before(parts, |parts|).At(source)
    ensures Align(parts, source, line, VisibleOnly) == Zero
  {
    forall k | 0 <= k < |parts|
      ensures !Hits(parts, k, source, line, VisibleOnly)
    {
      StepAt(parts, k, source);
      BeforeMonotone(parts, k + 1, |parts|);
    }
    AlignNoHit(parts, source, line, VisibleOnly);
  }

  /** The code maps a line to the start of its part, with no offset inside the
      part: with one unchanged part holding a whole file, every line of every
      pane sends the other panes to line 0. */
  lemma WholeFileSegmentPinsTargets(text: string, source: Pane, line: nat, rule: Rule)
    requires line < LineCount(Part(false, false, text))
    ensures Align([Part(false, false, text)], source, line, rule) == Zero
  {
    var parts := [Part(false, false, text)];
    assert IsFirstHit(parts, 0, source, line, rule);
    AlignFirstHit(parts, source, line, rule, 0);
  }

  // ---------------------------------------------------------------------------
  // The two range rules

  lemma {:induction false} SweepRulesAgree(parts: seq<Part>, source: Pane, line: nat, c: PaneLines)
    requires forall k :: 0 <= k < |parts| ==> Shown(parts[k], source)
    ensures Sweep(parts, source, line, AsWritten, c) == Sweep(parts, source, line, VisibleOnly, c)
  {
    if parts != [] {
      assert Shown(parts[0], source);
      assert forall k :: 0 <= k < |parts[1..]| ==> parts[1..][k] == parts[k + 1];
      SweepRulesAgree(parts[1..], source, line, Advance(c, parts[0]));
    }
  }

  /** The two range rules differ only on parts the source pane does not show:
      in particular they agree whenever the diff pane is the source. */
  lemma RulesAgreeWhenAllShown(parts: seq<Part>, source: Pane, line: nat)
    requires forall k :: 0 <= k < |parts| ==> Shown(parts[k], source)
    ensures Align(parts, source, line, AsWritten) == Align(parts, source, line, VisibleOnly)
  {
    SweepRulesAgree(parts, source, line, Zero);
  }

  /** Counting only shown lines, the range of part `k` ends where the range of
      part `k + 1` starts, so no earlier part can hold a line of part `k`: every
      line of a part is sent to that part's start in the other panes. */
  lemma VisibleOnlyLineInPart(parts: seq<Part>, source: Pane, line: nat, k: nat)
    requires k < |parts| && Hits(parts, k, source, line, VisibleOnly)
    ensures Align(parts, source, line, VisibleOnly) == Before(parts, k).With(source, 0)
  {
    forall j | 0 <= j < k
      ensures !Hits(parts, j, source, line, VisibleOnly)
    {
      StepAt(parts, j, source);
      BeforeMonotone(parts, j + 1, k);
    }
    AlignFirstHit(parts, source, line, VisibleOnly, k);
  }

  /** Counting only shown lines, every line before the end of the source pane
      lies in the range of some part. */
  lemma {:induction false} VisibleOnlyCoversPane(parts: seq<Part>, source: Pane, line: nat, m: nat)
    requires m <= |parts| && line < Before(parts, m).At(source)
    ensures exists k :: 0 <= k < m && Hits(parts, k, source, line, VisibleOnly)
  {
    if line >= Before(parts, m - 1).At(source) {
      StepAt(parts, m - 1, source);
      assert Hits(parts, m - 1, source, line, VisibleOnly);
    } else {
      VisibleOnlyCoversPane(parts, source, line, m - 1);
    }
  }

  /** If some part's range holds the line, a first such part exists. */
  lemma {:induction false} FirstHitExists(parts: seq<Part>, source: Pane, line: nat, rule: Rule, k: nat)
    requires k < |parts| && Hits(parts, k, source, line, rule)
    ensures exists f: nat :: f <= k && IsFirstHit(parts, f, source, line, rule)
    decreases k
  {
    if exists j :: 0 <= j < k && Hits(parts, j, source, line, rule) {
      var j :| 0 <= j < k && Hits(parts, j, source, line, rule);
      FirstHitExists(parts, source, line, rule, j);
    } else {
      assert IsFirstHit(parts, k, source, line, rule);
    }
  }

  /** With the page's own test, every line before the end of the source pane
      lies in the range of some part: a range counting only shown lines is
      never longer than the part's whole line count. */
  lemma AsWrittenCoversPane(parts: seq<Part>, source: Pane, line: nat)
    requires line < Before(parts, |parts|).At(source)
    ensures exists k :: 0 <= k < |parts| && Hits(parts, k, source, line, AsWritten)
  {
    VisibleOnlyCoversPane(parts, source, line, |parts|);
    var k :| 0 <= k < |parts| && Hits(parts, k, source, line, VisibleOnly);
    assert Width(parts[k], source, VisibleOnly) <= Width(parts[k], source, AsWritten);
    assert Hits(parts, k, source, line, AsWritten);
  }

  /** With the page's own test, every line before the end of the source pane
      has a first matching part. */
  lemma AsWrittenFirstHitInPane(parts: seq<Part>, source: Pane, line: nat) returns (k: nat)
    requires line < Before(parts, |parts|).At(source)
    ensures IsFirstHit(parts, k, source, line, AsWritten)
  {
    AsWrittenCoversPane(parts, source, line);
    var h :| 0 <= h < |parts| && Hits(parts, h, source, line, AsWritten);
    FirstHitExists(parts, source, line, AsWritten, h);
    k :| k <= h && IsFirstHit(parts, k, source, line, AsWritten);
  }

  /** The page's translation is monotone over the lines the source pane counts:
      scrolling further down never moves a target up. */
  lemma AsWrittenMonotoneInPane(parts: seq<Part>, source: Pane, line1: nat, line2: nat)
    requires line1 <= line2 < Before(parts, |parts|).At(source)
    ensures forall v :: Align(parts, source, line1, AsWritten).At(v) <= Align(parts, source, line2, AsWritten).At(v)
  {
    var k1 := AsWrittenFirstHitInPane(parts, source, line1);
    var k2 := AsWrittenFirstHitInPane(parts, source, line2);
    AlignMonotone(parts, source, line1, line2, AsWritten, k1, k2);
  }

  /** A diff that inserts line "X" between lines "a" and "b". */
  function InsertionExample(): seq<Part>
  {
    [Part(false, false, "a\n"), Part(true, false, "X\n"), Part(false, false, "b\nc\n")]
  }

  /** The text the original and modified panes show for the example. */
  lemma InsertionExampleText()
    ensures PaneText(InsertionExample(), Original) == "a\nb\nc\n"
    ensures PaneText(InsertionExample(), Modified) == "a\nX\nb\nc\n"
  {
    var parts := InsertionExample();
    assert parts[..2] == [parts[0], parts[1]] && parts[..2][..1] == [parts[0]];
    assert [parts[0]][..0] == [];
    assert PaneText([parts[0]], Original) == "a\n" == PaneText([parts[0]], Modified);
    assert PaneText(parts[..2], Original) == "a\n";
    assert PaneText(parts[..2], Modified) == "a\nX\n";
  }

  /** The rows the original pane renders for the example. */
  lemma InsertionExampleOriginalRows()
    ensures Split(PaneText(InsertionExample(), Original)) == ["a", "b", "c", ""]
  {
    InsertionExampleText();
    var rows := ["a", "b", "c", ""];
    assert Join(rows[3..]) == "";
    assert Join(rows[2..]) == "c\n";
    assert Join(rows[1..]) == "b\nc\n";
    assert Join(rows) == "a\nb\nc\n";
    SplitJoin(rows);
  }

  /** The rows the modified pane renders for the example. */
  lemma InsertionExampleModifiedRows()
    ensures Split(PaneText(InsertionExample(), Modified)) == ["a", "X", "b", "c", ""]
  {
    InsertionExampleText();
    var rows := ["a", "X", "b", "c", ""];
    assert Join(rows[4..]) == "";
    assert Join(rows[3..]) == "c\n";
    assert Join(rows[2..]) == "b\nc\n";
    assert Join(rows[1..]) == "X\nb\nc\n";
    assert Join(rows) == "a\nX\nb\nc\n";
    SplitJoin(rows);
  }

  /** The counters of the sweep over the example. */
  lemma InsertionExampleCounters()
    ensures Before(InsertionExample(), 1) == PaneLines(1, 1, 1)
    ensures Before(InsertionExample(), 2) == PaneLines(1, 2, 2)
    ensures LineCount(InsertionExample()[1]) == 1
    ensures LineCount(InsertionExample()[2]) == 2
  {
    var parts := InsertionExample();
    assert multiset(parts[0].value)['\n'] == 1 by { assert parts[0].value == ['a'] + ['\n']; }
    assert multiset(parts[1].value)['\n'] == 1 by { assert parts[1].value == ['X'] + ['\n']; }
    assert multiset(parts[2].value)['\n'] == 2 by { assert parts[2].value == ['b'] + ['\n'] + ['c'] + ['\n']; }
  }

  /** As written, the `added` part is tested on lines 1..2 of the original pane,
      where the original pane shows "b" (see InsertionExampleOriginalRows): original line 1 ("b") sends the modified
      pane to line 1 ("X") and original line 2 ("c"), in the same unchanged part,
      to line 2 ("b"). Counting only shown lines, both go to line 2, the start of
      the part they are in. */
  lemma InsertionCapturesOriginalLine()
    ensures Align(InsertionExample(), Original, 1, AsWritten) == PaneLines(0, 1, 1)
    ensures Align(InsertionExample(), Original, 2, AsWritten) == PaneLines(0, 2, 2)
    ensures Align(InsertionExample(), Original, 1, VisibleOnly) == PaneLines(0, 2, 2)
    ensures Align(InsertionExample(), Original, 2, VisibleOnly) == PaneLines(0, 2, 2)
  {
    var parts := InsertionExample();
    InsertionExampleCounters();
    assert IsFirstHit(parts, 1, Original, 1, AsWritten);
    AlignFirstHit(parts, Original, 1, AsWritten, 1);
    assert IsFirstHit(parts, 2, Original, 2, AsWritten);
    AlignFirstHit(parts, Original, 2, AsWritten, 2);
    VisibleOnlyLineInPart(parts, Original, 1, 2);
    VisibleOnlyLineInPart(parts, Original, 2, 2);
  }
  /** Monotonicity stops at the end of the source pane: in the example, diff
      line 3, the last line counted, sends the other panes to (1, 2), and diff
      line 4 sends them back to 0. */
  lemma InsertionExampleEndOfDiffPane()
    ensures Align(InsertionExample(), Diff, 3, AsWritten) == PaneLines(1, 2, 0)
    ensures Align(InsertionExample(), Diff, 4, AsWritten) == Zero
  {
    var parts := InsertionExample();
    InsertionExampleCounters();
    assert IsFirstHit(parts, 2, Diff, 3, AsWritten);
    AlignFirstHit(parts, Diff, 3, AsWritten, 2);
    assert Before(parts, 3).diff == 4;
    AlignPastEnd(parts, Diff, 4);
  }
  /** A trailing `added` part is still tested in the original pane, on lines
      past that pane's own count: with "a" followed by an inserted "X", the
      original pane counts one line, yet its line 1 matches the inserted part. */
  lemma TrailingInsertionMatchesPastOriginalEnd()
    ensures Before([Part(false, false, "a\n"), Part(true, false, "X\n")], 2).original == 1
    ensures Align([Part(false, false, "a\n"), Part(true, false, "X\n")], Original, 1, AsWritten) == PaneLines(0, 1, 1)
  {
    var parts := [Part(false, false, "a\n"), Part(true, false, "X\n")];
    assert multiset(parts[0].value)['\n'] == 1 by { assert parts[0].value == ['a'] + ['\n']; }
    assert multiset(parts[1].value)['\n'] == 1 by { assert parts[1].value == ['X'] + ['\n']; }
    assert Before(parts, 1) == PaneLines(1, 1, 1);
    assert IsFirstHit(parts, 1, Original, 1, AsWritten);
    AlignFirstHit(parts, Original, 1, AsWritten, 1);
  }
}
