/** The state of the console progress bar that the transfer loop uses as its
    completion test. Drawing, colours, the elapsed-time timer and its lock
    are left out; what remains is the arithmetic that decides
    `CurrentPercentage` and the two 50-character containers. */
module Progress {

  const BarWidth: nat := 50

  /** The abstract state of a bar. */
  datatype BarState = BarState(
    isActive: bool,
    disposed: bool,
    itemsCompleted: int,
    itemsToComplete: int,
    currentPercentage: int)

  /** C#'s integer division: the quotient is truncated toward zero. */
  function TruncDiv(n: int, d: int): int
    requires d != 0
  {
    var q := (if n < 0 then -n else n) / (if d < 0 then -d else d);
    if (n < 0) != (d < 0) then -q else q
  }

  /** `(long)(100 * itemsCompleted / itemsToComplete)`. */
  function Percentage(itemsCompleted: int, itemsToComplete: int): int
    requires itemsToComplete != 0
  {
    TruncDiv(100 * itemsCompleted, itemsToComplete)
  }

  /** A freshly constructed bar. */
  function Initial(itemsToComplete: nat): BarState {
    BarState(false, false, 0, itemsToComplete, 0)
  }

  /** `Start`: a bar that is already active or disposed is left alone. */
  function Started(b: BarState): BarState {
    if b.isActive || b.disposed then b else b.(isActive := true)
  }

  /** `Dispose`. */
  function Disposed(b: BarState): BarState {
    b.(disposed := true, isActive := false)
  }

  /** An active bar with nothing to complete divides by zero on `Update`. */
  predicate UpdateThrows(b: BarState) {
    b.isActive && !b.disposed && b.itemsToComplete == 0
  }

  /** `Update(items)`: nothing unless active and not disposed; otherwise the
      items are added, and the percentage is taken over only when it is even,
      new and at most 100. When the division throws, the items have already
      been added. */
  function Updated(b: BarState, items: nat): BarState {
    if !b.isActive || b.disposed then b
    else
      var completed := b.itemsCompleted + items;
      if b.itemsToComplete == 0 then b.(itemsCompleted := completed)
      else
        var percentage := Percentage(completed, b.itemsToComplete);
        if percentage % 2 != 0 || percentage == b.currentPercentage || percentage > 100 then
          b.(itemsCompleted := completed)
        else
          b.(itemsCompleted := completed, currentPercentage := percentage)
  }

  /** What every reachable bar satisfies: an even percentage between 0 and
      100 that never runs ahead of the items completed. */
  predicate Consistent(b: BarState) {
    && 0 <= b.currentPercentage <= 100
    && b.currentPercentage % 2 == 0
    && b.itemsCompleted >= 0
    && b.itemsToComplete >= 0
    && (b.itemsToComplete == 0 ==> b.currentPercentage == 0)
    && (b.itemsToComplete > 0 ==> b.currentPercentage <= Percentage(b.itemsCompleted, b.itemsToComplete))
  }

  function Spaces(n: nat): (s: string)
    ensures |s| == n && forall i :: 0 <= i < n ==> s[i] == ' '
  {
    seq(n, _ => ' ')
  }

  /** The percentage is the floor of 100 * completed / total. */
  lemma PercentageIsFloor(completed: nat, total: int)
    requires total > 0
    ensures Percentage(completed, total) * total <= 100 * completed
    ensures 100 * completed < (Percentage(completed, total) + 1) * total
  {
    var n := 100 * completed;
    var q := n / total;
    assert n == q * total + n % total;
    assert (q + 1) * total == q * total + total;
  }

  lemma {:induction false} PercentageMonotone(c1: nat, c2: nat, total: int)
    requires total > 0 && c1 <= c2
    ensures Percentage(c1, total) <= Percentage(c2, total)
  {
    PercentageIsFloor(c1, total);
    PercentageIsFloor(c2, total);
    var p1, p2 := Percentage(c1, total), Percentage(c2, total);
    assert p1 * total < (p2 + 1) * total;
    CancelFactor(p1, p2 + 1, total);
  }

  lemma CancelFactor(a: int, b: int, t: int)
    requires t > 0 && a * t < b * t
    ensures a < b
  {
    assert (b - a) * t == b * t - a * t;
  }

  /** Every operation keeps a bar consistent. */
  lemma UpdatePreservesConsistent(b: BarState, items: nat)
    requires Consistent(b)
    ensures Consistent(Updated(b, items))
  {
    if b.isActive && !b.disposed && b.itemsToComplete > 0 {
      PercentageMonotone(b.itemsCompleted, b.itemsCompleted + items, b.itemsToComplete);
    }
  }

  lemma StartAndDisposePreserveConsistent(b: BarState)
    requires Consistent(b)
    ensures Consistent(Started(b)) && Consistent(Disposed(b))
  {
  }

  /** Before it is started, and after it is disposed, a bar ignores updates. */
  lemma UpdateIgnoredUnlessActive(b: BarState, items: nat)
    requires !b.isActive || b.disposed
    ensures Updated(b, items) == b
  {
  }

  /** An active bar adds every update to its count, whether or not the
      shown percentage moves. */
  lemma UpdateAlwaysCounts(b: BarState, items: nat)
    requires b.isActive && !b.disposed
    ensures Updated(b, items).itemsCompleted == b.itemsCompleted + items
    ensures Updated(b, items).itemsToComplete == b.itemsToComplete
  {
  }

  /** The shown percentage only ever moves to an even value of at most 100
      that is the floor of 100 * completed / total. */
  lemma PercentageMovesOnlyToEvenFloor(b: BarState, items: nat)
    requires Updated(b, items).currentPercentage != b.currentPercentage
    ensures var n := Updated(b, items);
            && b.itemsToComplete != 0
            && n.currentPercentage % 2 == 0 && n.currentPercentage <= 100
            && n.currentPercentage == Percentage(n.itemsCompleted, b.itemsToComplete)
  {
  }

  /** 100 is shown as soon as the items completed reach 100% of the total
      (and stay under 101%, beyond which the update is ignored). */
  lemma HundredReached(b: BarState, items: nat)
    requires b.isActive && !b.disposed && b.itemsToComplete > 0
    requires Percentage(b.itemsCompleted + items, b.itemsToComplete) == 100
    ensures Updated(b, items).currentPercentage == 100
  {
  }

  /** A consistent bar that shows 100 has completed at least its total. */
  lemma HundredMeansAllItems(b: BarState)
    requires Consistent(b) && b.currentPercentage == 100
    ensures b.itemsToComplete > 0 && b.itemsCompleted >= b.itemsToComplete
  {
    PercentageIsFloor(b.itemsCompleted, b.itemsToComplete);
  }

  /** Starting is idempotent and a disposed bar cannot be started again. */
  lemma StartIdempotent(b: BarState)
    ensures Started(Started(b)) == Started(b)
    ensures Started(Disposed(b)) == Disposed(b)
  {
  }

  class ProgressBar {
    var operationText: string
    var emptyProgressContainer: string
    var filledProgressContainer: string
    var itemsCompleted: int
    var itemsToComplete: int
    var currentPercentage: int
    var isActive: bool
    var disposed: bool

    function State(): BarState
      reads this
    {
      BarState(isActive, disposed, itemsCompleted, itemsToComplete, currentPercentage)
    }

    /** The containers always hold CurrentPercentage / 2 filled cells and the
        rest of the 50 empty. */
    ghost predicate Valid()
      reads this
    {
      && Consistent(State())
      && filledProgressContainer == Spaces(currentPercentage / 2)
      && emptyProgressContainer == Spaces(BarWidth - currentPercentage / 2)
    }

    function CurrentPercentage(): int
      reads this
    {
      currentPercentage
    }

    constructor (operationText: string, itemsToComplete: nat)
      ensures Valid() && State() == Initial(itemsToComplete)
      ensures this.operationText == operationText
    {
      this.operationText := operationText;
      this.itemsToComplete := itemsToComplete;
      emptyProgressContainer := Spaces(BarWidth);
      filledProgressContainer := "";
      itemsCompleted := 0;
      currentPercentage := 0;
      isActive := false;
      disposed := false;
    }

    method Start()
      requires Valid()
      modifies this
      ensures Valid() && State() == Started(old(State()))
      ensures unchanged(this`operationText)
    {
      if isActive || disposed {
        return;
      }
      isActive := true;
    }

    method Update(items: nat) returns (divideByZero: bool)
      requires Valid()
      modifies this
      ensures Valid() && State() == Updated(old(State()), items)
      ensures divideByZero == UpdateThrows(old(State()))
      ensures unchanged(this`operationText)
    {
      if !isActive || disposed {
        return false;
      }
      ghost var target := Updated(State(), items);
      UpdatePreservesConsistent(State(), items);
      itemsCompleted := itemsCompleted + items;
      if itemsToComplete == 0 {
        return true;
      }
      var percentage := Percentage(itemsCompleted, itemsToComplete);
      if percentage % 2 != 0 || percentage == currentPercentage || percentage > 100 {
        return false;
      }
      assert target.currentPercentage == percentage;
      PercentageMonotone(itemsCompleted - items, itemsCompleted, itemsToComplete);
      ghost var counted := State();
      ghost var goal := percentage / 2;
      assert percentage == 2 * goal;
      var i := currentPercentage;
      ghost var cells := i / 2;
      while i < percentage
        invariant i == 2 * cells && cells <= goal
        invariant State() == counted
        invariant operationText == old(operationText)
        invariant filledProgressContainer == Spaces(cells)
        invariant emptyProgressContainer == Spaces(BarWidth - cells)
      {
        emptyProgressContainer := emptyProgressContainer[1..];
        filledProgressContainer := " " + filledProgressContainer;
        i := i + 2;
        cells := cells + 1;
      }
      assert cells == goal;
      currentPercentage := percentage;
      return false;
    }

    method Dispose()
      requires Valid()
      modifies this
      ensures Valid() && State() == Disposed(old(State()))
      ensures unchanged(this`operationText)
    {
      disposed := true;
      isActive := false;
    }
  }
}
