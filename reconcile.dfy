/**
 * The per-answer reconciliation step of `processAnswer`, on an abstract
 * answer block, and its repetition over a list of blocks (one observer batch
 * or the bootstrap pass).
 */
module Reconcile {

  import opened Wrappers
  import opened Batch

  /** The answer's `.ContentItem-meta` element; only its inline `style.position` matters here. */
  datatype Header = Header(position: string)

  /**
   * What the step reads from one answer: whether it is in the document,
   * whether it holds an expand affordance (`.ContentItem-expandButton` or
   * `.ContentItem-more`), its header if any, and how many select buttons
   * (`.zh-select-btn`) it holds.
   */
  datatype Block = Block(connected: bool, hasExpandAffordance: bool, header: Option<Header>, buttons: nat)

  type Blocks = map<BlockId, Block>

  /** An answer is expanded when it has no expand affordance. */
  predicate Expanded(b: Block)
  {
    !b.hasExpandAffordance
  }

  /** An answer should carry a button: expanded, with a header. */
  predicate Actionable(b: Block)
  {
    Expanded(b) && b.header.Some?
  }

  /** The step appends a button (and registers a binding) exactly for these. */
  predicate NeedsButton(b: Block)
  {
    b.connected && Actionable(b) && b.buttons == 0
  }

  /** The page-wide invariant: no answer holds more than one button. */
  ghost predicate AtMostOneButton(m: Blocks)
  {
    forall id :: id in m ==> m[id].buttons <= 1
  }

  /** `if (!header.style.position) header.style.position = 'relative'`. */
  function Positioned(h: Header): Header
  {
    if h.position == "" then Header("relative") else h
  }

  /**
   * One reconciliation of one answer: a disconnected answer is left alone; a
   * collapsed or headerless one loses its first button, if any; an expanded
   * one with a header and no button gets one, and its header a positioning
   * context; otherwise nothing changes.
   */
  function Step(b: Block): (r: Block)
    // a disconnected answer is not touched
    ensures !b.connected ==> r == b
    // the host's part of the block is never changed
    ensures r.connected == b.connected && r.hasExpandAffordance == b.hasExpandAffordance
    ensures r.header.Some? == b.header.Some?
    // at most one button per answer is kept
    ensures b.buttons <= 1 ==> r.buttons <= 1
    // after the step a connected answer has a button exactly when it is expanded and has a header
    ensures b.connected && b.buttons <= 1 ==> (r.buttons == 1 <==> Actionable(b))
    // a collapsed or headerless answer loses exactly one stray button
    ensures b.connected && !Actionable(b) ==> r.buttons == if b.buttons == 0 then 0 else b.buttons - 1
    // the position is set to relative only when it was empty, and only when a button is appended
    ensures r.header.Some? ==> (r.header.value.position ==
      if NeedsButton(b) && b.header.value.position == "" then "relative" else b.header.value.position)
    // nothing is left for a second step to append
    ensures !NeedsButton(r)
  {
    if !b.connected then b
    else if !Expanded(b) || b.header.None? then
      b.(buttons := if b.buttons > 0 then b.buttons - 1 else 0)
    else if b.buttons == 0 then
      b.(header := Some(Positioned(b.header.value)), buttons := 1)
    else b
  }

  /** A second step on an unchanged answer changes nothing and appends nothing. */
  lemma StepIdempotent(b: Block)
    requires b.buttons <= 1
    ensures Step(Step(b)) == Step(b)
    ensures !NeedsButton(Step(b))
  {
  }

  /** `processAnswer(id)` on a whole page; an unknown id is treated like a disconnected one. */
  function Apply(m: Blocks, id: BlockId): (r: Blocks)
  {
    if id in m then m[id := Step(m[id])] else m
  }

  /**
   * Processing an unchanged answer a second time leaves every answer as the
   * first time left it and registers no further binding.
   */
  lemma SecondPassIsNoOp(m: Blocks, id: BlockId)
    requires AtMostOneButton(m)
    ensures Apply(Apply(m, id), id) == Apply(m, id)
    ensures !(id in Apply(m, id) && NeedsButton(Apply(m, id)[id]))
  {
    if id in m {
      StepIdempotent(m[id]);
    }
  }

  /** The pages after processing `ids` one after the other. */
  function ReconcileAll(m: Blocks, ids: seq<BlockId>): (r: Blocks)
    ensures r.Keys == m.Keys
    ensures forall k :: k in r ==> r[k].connected == m[k].connected
    ensures AtMostOneButton(m) ==> AtMostOneButton(r)
    decreases |ids|
  {
    if ids == [] then m
    else Apply(ReconcileAll(m, ids[..|ids| - 1]), ids[|ids| - 1])
  }

  /** The keydown bindings registered while processing `ids` one after the other. */
  function NewBindings(m: Blocks, ids: seq<BlockId>): (r: seq<BlockId>)
    decreases |ids|
  {
    if ids == [] then []
    else
      var before := ReconcileAll(m, ids[..|ids| - 1]);
      var id := ids[|ids| - 1];
      NewBindings(m, ids[..|ids| - 1]) + if id in before && NeedsButton(before[id]) then [id] else []
  }

  /** Processing one more answer at the end of a pass. */
  lemma PassSnoc(m: Blocks, ids: seq<BlockId>, id: BlockId)
    ensures ReconcileAll(m, ids + [id]) == Apply(ReconcileAll(m, ids), id)
    ensures NewBindings(m, ids + [id]) == NewBindings(m, ids) +
      var before := ReconcileAll(m, ids); if id in before && NeedsButton(before[id]) then [id] else []
  {
    assert (ids + [id])[..|ids|] == ids;
  }

  /**
   * After a pass over `ids`, every listed answer has been reconciled once
   * (repeats are no-ops) and every other answer is untouched.
   */
  lemma {:induction false} ReconcileAllAt(m: Blocks, ids: seq<BlockId>, k: BlockId)
    requires AtMostOneButton(m)
    requires k in m
    ensures ReconcileAll(m, ids)[k] == if k in ids then Step(m[k]) else m[k]
    decreases |ids|
  {
    if ids != [] {
      var init := ids[..|ids| - 1];
      var last := ids[|ids| - 1];
      assert forall x :: x in ids <==> x in init || x == last;
      ReconcileAllAt(m, init, k);
      if k == last && k in init {
        StepIdempotent(m[k]);
      }
    }
  }

  /**
   * A pass registers one binding for each listed answer that needed a
   * button before the pass, and no other; no answer is bound twice.
   */
  lemma {:induction false} NewBindingsSpec(m: Blocks, ids: seq<BlockId>)
    requires AtMostOneButton(m)
    ensures forall x :: x in NewBindings(m, ids) <==> x in ids && x in m && NeedsButton(m[x])
    ensures Distinct(NewBindings(m, ids))
    decreases |ids|
  {
    if ids != [] {
      var init := ids[..|ids| - 1];
      var last := ids[|ids| - 1];
      var before := ReconcileAll(m, init);
      assert forall x :: x in ids <==> x in init || x == last;
      NewBindingsSpec(m, init);
      if last in m {
        ReconcileAllAt(m, init, last);
      }
      var added := if last in before && NeedsButton(before[last]) then [last] else [];
      assert NewBindings(m, ids) == NewBindings(m, init) + added;
      if added != [] {
        assert last !in init;
        assert last !in NewBindings(m, init);
      }
    }
  }

  /**
   * One observer batch reconciles each answer that encloses some target
   * exactly once; answers that enclose no target are untouched.
   */
  lemma BatchReconcilesEveryHit(m: Blocks, enclosing: map<NodeId, BlockId>, targets: seq<NodeId>, k: BlockId)
    requires AtMostOneButton(m)
    requires k in m
    ensures ReconcileAll(m, Dedup(Closest(enclosing, targets)))[k] ==
      if exists t :: t in targets && t in enclosing && enclosing[t] == k then Step(m[k]) else m[k]
  {
    ClosestMembers(enclosing, targets);
    DedupSpec(Closest(enclosing, targets));
    ReconcileAllAt(m, Dedup(Closest(enclosing, targets)), k);
  }

  /**
   * A collapsed answer never receives a button, however many passes run,
   * and no binding is registered for it.
   */
  lemma CollapsedNeverGetsButton(m: Blocks, ids: seq<BlockId>, k: BlockId)
    requires AtMostOneButton(m)
    requires k in m && m[k].hasExpandAffordance
    ensures m[k].buttons == 0 ==> ReconcileAll(m, ids)[k].buttons == 0
    ensures k !in NewBindings(m, ids)
  {
    ReconcileAllAt(m, ids, k);
    NewBindingsSpec(m, ids);
  }

  /** An answer still in the document ends a pass that lists it with a button exactly when it is actionable. */
  lemma PassEstablishesButtonInvariant(m: Blocks, ids: seq<BlockId>, k: BlockId)
    requires AtMostOneButton(m)
    requires k in m && m[k].connected && k in ids
    ensures ReconcileAll(m, ids)[k].buttons == if Actionable(m[k]) then 1 else 0
    ensures ReconcileAll(m, ids)[k].buttons > 0 ==> Expanded(ReconcileAll(m, ids)[k])
    ensures ReconcileAll(m, ids)[k].buttons > 0 ==> ReconcileAll(m, ids)[k].header.Some?
  {
    ReconcileAllAt(m, ids, k);
  }

  /** `answerEl.isConnected`, for an answer of the page. */
  predicate Live(m: Blocks, id: BlockId)
  {
    id in m && m[id].connected
  }

  /** Processing answers never changes which of them are in the document. */
  lemma ReconcileAllKeepsLive(m: Blocks, ids: seq<BlockId>, id: BlockId)
    ensures Live(ReconcileAll(m, ids), id) == Live(m, id)
  {
  }

  /** The prefix of `ids` the as-written callback gets through: up to and including the first id that is not connected. */
  function CallsAsWritten(ids: seq<BlockId>, m: Blocks): (r: seq<BlockId>)
  {
    if ids == [] then []
    else if !Live(m, ids[0]) then [ids[0]]
    else [ids[0]] + CallsAsWritten(ids[1..], m)
  }

  /** The as-written calls are a prefix of `ids`, and all but the last of them are to connected answers. */
  lemma {:induction false} CallsAsWrittenPrefix(ids: seq<BlockId>, m: Blocks)
    ensures |CallsAsWritten(ids, m)| <= |ids|
    ensures CallsAsWritten(ids, m) == ids[..|CallsAsWritten(ids, m)|]
    ensures forall i :: 0 <= i < |CallsAsWritten(ids, m)| - 1 ==> Live(m, ids[i])
  {
    if ids != [] && Live(m, ids[0]) {
      CallsAsWrittenPrefix(ids[1..], m);
      var r := CallsAsWritten(ids[1..], m);
      assert ids[..|r| + 1] == [ids[0]] + ids[1..][..|r|];
      assert forall i :: 0 < i < |r| + 1 ==> ids[i] == ids[1..][i - 1];
    }
  }

  /**
   * The as-written callback gets through the whole list exactly when every
   * answer before the last one is connected; only then does it agree with
   * the corrected callback.
   */
  lemma {:induction false} CallsAsWrittenComplete(ids: seq<BlockId>, m: Blocks)
    ensures CallsAsWritten(ids, m) == ids <==> forall i :: 0 <= i < |ids| - 1 ==> Live(m, ids[i])
  {
    if ids != [] {
      var t := ids[1..];
      CallsAsWrittenComplete(t, m);
      assert ids == [ids[0]] + t;
      if Live(m, ids[0]) {
        assert CallsAsWritten(ids, m) == [ids[0]] + CallsAsWritten(t, m);
        assert CallsAsWritten(ids, m) == ids <==> CallsAsWritten(t, m) == t;
        if forall i :: 0 <= i < |t| - 1 ==> Live(m, t[i]) {
          forall i | 0 <= i < |ids| - 1 ensures Live(m, ids[i]) {
            if i > 0 { assert ids[i] == t[i - 1]; }
          }
        } else {
          var j :| 0 <= j < |t| - 1 && !Live(m, t[j]);
          assert ids[j + 1] == t[j];
        }
      } else {
        assert CallsAsWritten(ids, m) == [ids[0]];
      }
    }
  }

  /** One more answer taken by the as-written loop, whose calls so far are `done`. */
  lemma CallsAsWrittenNext(done: seq<BlockId>, seen: set<BlockId>, id: BlockId, later: seq<BlockId>, m: Blocks,
                           whole: seq<BlockId>)
    requires id !in seen
    requires done + CallsAsWritten(DedupFrom([id] + later, seen), m) == whole
    ensures Live(m, id) ==> (done + [id]) + CallsAsWritten(DedupFrom(later, seen + {id}), m) == whole
    ensures !Live(m, id) ==> done + [id] == whole
  {
    var rest := DedupFrom(later, seen + {id});
    DedupFromCons(id, later, seen);
    CallsAsWrittenCons(id, rest, m);
    if Live(m, id) {
      assert done + ([id] + CallsAsWritten(rest, m)) == (done + [id]) + CallsAsWritten(rest, m);
    }
  }

  lemma CallsAsWrittenCons(id: BlockId, rest: seq<BlockId>, m: Blocks)
    ensures CallsAsWritten([id] + rest, m) == if Live(m, id) then [id] + CallsAsWritten(rest, m) else [id]
  {
    assert ([id] + rest)[1..] == rest;
  }

  /**
   * The as-written batch callback stops at a disconnected answer: with
   * targets inside a removed answer 0 and a live expanded answer 1, only
   * answer 0 is processed, so answer 1 gets no button, while the corrected
   * callback gives it one.
   */
  lemma AsWrittenBatchStopsEarly()
    ensures
      var m := map[0 := Block(false, false, Some(Header("")), 0), 1 := Block(true, false, Some(Header("")), 0)];
      var hits := Dedup(Closest(map[10 := 0, 11 := 1], [10, 11]));
      && hits == [0, 1]
      && CallsAsWritten(hits, m) == [0]
      && ReconcileAll(m, CallsAsWritten(hits, m))[1].buttons == 0
      && ReconcileAll(m, hits)[1].buttons == 1
  {
    var m := map[0 := Block(false, false, Some(Header("")), 0), 1 := Block(true, false, Some(Header("")), 0)];
    var enclosing := map[10 := 0, 11 := 1];
    assert Closest(enclosing, [11]) == [1];
    assert Closest(enclosing, [10, 11]) == [0, 1];
    assert [0, 1][1..] == [1];
    assert [1][1..] == [];
    assert DedupFrom([1], {0}) == [1] + DedupFrom([], {0, 1});
    assert DedupFrom([0, 1], {}) == [0] + DedupFrom([1], {0});
    assert Dedup([0, 1]) == [0, 1];
    assert CallsAsWritten([0, 1], m) == [0];
    assert ReconcileAll(m, [0]) == m;
    assert [0, 1][..1] == [0];
  }
}
