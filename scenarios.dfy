/**
 * Clients of the page model: runs of the script over small concrete pages,
 * checked against the contracts of `Page` alone.
 */
module Scenarios {

  import opened Wrappers
  import opened Batch
  import opened Reconcile
  import opened Page
  import opened Retry

  /**
   * An answer that is expanded, then collapsed by the host, then expanded
   * again, with a reconciliation after each change, ends with one button and
   * two registered bindings: the binding of the removed button is never
   * taken away.
   */
  method ExpandCollapseExpand() returns (buttons: nat, bindingCount: nat)
    ensures buttons == 1 && bindingCount == 2
  {
    var header := Some(Header(""));
    var page := new Page(map[0 := Block(true, false, header, 0)], map[]);
    var _ := page.ProcessAnswer(0);
    assert page.blocks[0].buttons == 1 && page.bindings == [0];
    page.HostUpdate(0, true, true, page.blocks[0].header, page.blocks[0].buttons);
    var _ := page.ProcessAnswer(0);
    assert page.blocks[0].buttons == 0 && page.bindings == [0];
    page.HostUpdate(0, true, false, page.blocks[0].header, page.blocks[0].buttons);
    var _ := page.ProcessAnswer(0);
    buttons, bindingCount := page.blocks[0].buttons, |page.bindings|;
  }

  /**
   * The host re-renders the header of an answer that has a button, which
   * drops the button; the next reconciliation appends a second button and
   * registers a second binding, and the first binding stays.
   */
  method HeaderReplacedRebinds() returns (buttons: nat, onAltS: seq<BlockId>)
    ensures buttons == 1 && onAltS == [0, 0]
  {
    var page := new Page(map[0 := Block(true, false, Some(Header("")), 0)], map[]);
    var _ := page.ProcessAnswer(0);
    assert page.blocks[0].buttons == 1 && page.bindings == [0];
    page.HostUpdate(0, true, false, Some(Header("")), 0);
    var _ := page.ProcessAnswer(0);
    buttons := page.blocks[0].buttons;
    onAltS := page.ShortcutTargets(true, "s");
  }

  /**
   * An already expanded answer with a header, present at start-up, gets one
   * button from the bootstrap pass, its header becomes positioned, and Alt+S
   * then clicks that button; a plain "s" clicks nothing.
   */
  method BootstrapThenShortcut() returns (buttons: nat, position: string, onAltS: seq<BlockId>, onS: seq<BlockId>)
    ensures buttons == 1 && position == "relative"
    ensures onAltS == [0] && onS == []
  {
    var page := new Page(map[0 := Block(true, false, Some(Header("")), 0)], map[]);
    page.Bootstrap([0]);
    assert [0][..0] == [];
    ReconcileAllAt(map[0 := Block(true, false, Some(Header("")), 0)], [0], 0);
    NewBindingsSpec(map[0 := Block(true, false, Some(Header("")), 0)], [0]);
    assert page.bindings == NewBindings(map[0 := Block(true, false, Some(Header("")), 0)], [0]);
    assert page.bindings == [0];
    buttons := page.blocks[0].buttons;
    position := page.blocks[0].header.value.position;
    onAltS := page.ShortcutTargets(true, "S");
    onS := page.ShortcutTargets(false, "s");
  }

  /**
   * Two batches whose targets lie in the same answer each process that
   * answer, since the set of processed answers is fresh per batch; the
   * second one finds the button in place and changes nothing.
   */
  method RepeatedBatches()
    returns (first: seq<BlockId>, second: seq<BlockId>, afterFirst: Blocks, afterSecond: Blocks, bindingCount: nat)
    ensures first == [0] && second == [0]
    ensures 0 in afterFirst && afterFirst[0] == Block(true, false, Some(Header("static")), 1)
    ensures afterSecond == afterFirst
    ensures bindingCount == 1
  {
    var m := map[0 := Block(true, false, Some(Header("static")), 0)];
    var enclosing := map[7 := 0, 8 := 0];
    var page := new Page(m, enclosing);
    assert Closest(enclosing, [7, 8]) == [0, 0] by {
      assert [7, 8][1..] == [8] && [8][1..] == [];
    }
    assert Dedup([0, 0]) == [0] by {
      assert [0, 0][1..] == [0] && [0][1..] == [];
      assert DedupFrom([0], {0}) == DedupFrom([], {0}) == [];
      assert DedupFrom([0, 0], {}) == [0] + DedupFrom([0], {0});
    }
    first := page.OnMutations([7, 8]);
    assert [0][..0] == [];
    assert page.blocks == Apply(m, 0);
    assert page.bindings == [0];
    afterFirst := page.blocks;
    second := page.OnMutations([7, 8]);
    SecondPassIsNoOp(m, 0);
    assert page.blocks == Apply(afterFirst, 0);
    afterSecond := page.blocks;
    bindingCount := |page.bindings|;
  }

  /**
   * With the default bound, an operation that always throws is invoked
   * three times, waited on twice, and its third error is rethrown.
   */
  method DefaultRetryAlwaysFails() returns (r: RetryResult<(), nat>, invocations: nat, waits: nat)
    ensures r == Threw(2) && invocations == 3 && waits == 2
  {
    r, invocations, waits := WithRetry((k: nat) => Err(k), RetryAttempts);
  }
}
