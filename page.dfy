/**
 * The abstract page the script runs on: the answer blocks, the `closest`
 * lookup from document nodes to their enclosing answer, and the keydown
 * bindings registered so far. `processAnswer`, the observer callback and
 * the bootstrap pass of `init` update it in place.
 */
module Page {

  import opened Wrappers
  import opened Batch
  import opened Reconcile
  import opened Shortcut

  class Page {
    /** The answers of the document, by identity. */
    var blocks: Blocks
    /** `node.closest('.AnswerItem')`: nodes absent from the map have no enclosing answer. */
    var enclosing: map<NodeId, BlockId>
    /**
     * One entry per `document.addEventListener('keydown', …)`, naming the
     * answer it was registered for; the cleanup function is discarded, so
     * entries are never removed.
     */
    var bindings: seq<BlockId>

    ghost predicate Valid()
      reads this
    {
      AtMostOneButton(blocks)
    }

    /** The page as the host renders it, before the script has attached anything. */
    constructor (initial: Blocks, closest: map<NodeId, BlockId>)
      requires AtMostOneButton(initial)
      ensures Valid()
      ensures blocks == initial && enclosing == closest && bindings == []
    {
      blocks, enclosing, bindings := initial, closest, [];
    }

    /**
     * `processAnswer`: returns false without doing anything (the source's
     * `undefined`) for an answer that is not in the document, and otherwise
     * reconciles that one answer.
     */
    method ProcessAnswer(id: BlockId) returns (ran: bool)
      requires Valid()
      modifies this
      ensures Valid()
      ensures ran == (id in old(blocks) && old(blocks)[id].connected)
      ensures blocks == Apply(old(blocks), id)
      ensures bindings == old(bindings) + if id in old(blocks) && NeedsButton(old(blocks)[id]) then [id] else []
      ensures enclosing == old(enclosing)
    {
      if id !in blocks || !blocks[id].connected {
        return false;
      }
      ran := true;
      var b := blocks[id];
      var isExpanded := !b.hasExpandAffordance;
      var header := b.header;
      var existingBtn := b.buttons > 0;
      if !isExpanded || header.None? {
        if existingBtn {
          blocks := blocks[id := b.(buttons := b.buttons - 1)];
        }
        return;
      }
      if !existingBtn {
        var h := header.value;
        if h.position == "" {
          h := h.(position := "relative");
        }
        blocks := blocks[id := b.(header := Some(h), buttons := b.buttons + 1)];
        bindings := bindings + [id];
      }
    }

    /**
     * `processAnswer(id)` as the next call of a pass that started on `start`
     * with the bindings `bound` and has processed `done` so far.
     */
    method ProcessNext(ghost start: Blocks, ghost bound: seq<BlockId>, ghost done: seq<BlockId>, id: BlockId)
        returns (ran: bool)
      requires Valid() && AtMostOneButton(start)
      requires blocks == ReconcileAll(start, done) && bindings == bound + NewBindings(start, done)
      modifies this
      ensures Valid() && enclosing == old(enclosing)
      ensures ran == Live(start, id)
      ensures blocks == ReconcileAll(start, done + [id])
      ensures bindings == bound + NewBindings(start, done + [id])
    {
      PassSnoc(start, done, id);
      ReconcileAllKeepsLive(start, done, id);
      ran := ProcessAnswer(id);
    }

    /**
     * The observer callback on one batch of mutation targets, with each
     * disconnected answer skipped: every enclosing answer is processed
     * once, in order of first occurrence, with a set that is fresh for the
     * batch.
     */
    method OnMutations(targets: seq<NodeId>) returns (processed: seq<BlockId>)
      requires Valid()
      modifies this
      ensures Valid()
      ensures enclosing == old(enclosing)
      ensures processed == Dedup(Closest(old(enclosing), targets))
      ensures blocks == ReconcileAll(old(blocks), processed)
      ensures bindings == old(bindings) + NewBindings(old(blocks), processed)
    {
      var seen: set<BlockId> := {};
      processed := [];
      for i := 0 to |targets|
        invariant Valid() && enclosing == old(enclosing)
        invariant processed + DedupFrom(Closest(enclosing, targets[i..]), seen) == Dedup(Closest(enclosing, targets))
        invariant forall x :: x in seen <==> x in processed
        invariant blocks == ReconcileAll(old(blocks), processed)
        invariant bindings == old(bindings) + NewBindings(old(blocks), processed)
      {
        ClosestAt(enclosing, targets, i);
        var answer: Option<BlockId> := if targets[i] in enclosing then Some(enclosing[targets[i]]) else None;
        if answer.Some? && answer.value !in seen {
          var id := answer.value;
          DedupFromCons(id, Closest(enclosing, targets[i + 1..]), seen);
          assert processed + DedupFrom(Closest(enclosing, targets[i..]), seen) ==
            (processed + [id]) + DedupFrom(Closest(enclosing, targets[i + 1..]), seen + {id});
          seen := seen + {id};
          var _ := ProcessNext(old(blocks), old(bindings), processed, id);
          processed := processed + [id];
        } else if answer.Some? {
          DedupFromCons(answer.value, Closest(enclosing, targets[i + 1..]), seen);
        } else {
          assert Closest(enclosing, targets[i..]) == Closest(enclosing, targets[i + 1..]);
        }
      }
    }

    /**
     * The observer callback exactly as written: `processAnswer(answerEl).catch(…)`
     * on a disconnected answer calls `.catch` on `undefined`, which throws
     * and abandons the rest of the batch.
     */
    method OnMutationsAsWritten(targets: seq<NodeId>) returns (processed: seq<BlockId>, threw: bool)
      requires Valid()
      modifies this
      ensures Valid()
      ensures enclosing == old(enclosing)
      ensures processed == CallsAsWritten(Dedup(Closest(old(enclosing), targets)), old(blocks))
      ensures threw <==> processed != [] && !Live(old(blocks), processed[|processed| - 1])
      ensures blocks == ReconcileAll(old(blocks), processed)
      ensures bindings == old(bindings) + NewBindings(old(blocks), processed)
    {
      var seen: set<BlockId> := {};
      processed, threw := [], false;
      for i := 0 to |targets|
        invariant Valid() && enclosing == old(enclosing)
        invariant processed + CallsAsWritten(DedupFrom(Closest(enclosing, targets[i..]), seen), old(blocks)) ==
          CallsAsWritten(Dedup(Closest(enclosing, targets)), old(blocks))
        invariant forall x :: x in seen <==> x in processed
        invariant forall x :: x in processed ==> Live(old(blocks), x)
        invariant blocks == ReconcileAll(old(blocks), processed)
        invariant bindings == old(bindings) + NewBindings(old(blocks), processed)
      {
        ClosestAt(enclosing, targets, i);
        var answer: Option<BlockId> := if targets[i] in enclosing then Some(enclosing[targets[i]]) else None;
        if answer.Some? && answer.value !in seen {
          var id := answer.value;
          CallsAsWrittenNext(processed, seen, id, Closest(enclosing, targets[i + 1..]), old(blocks),
            CallsAsWritten(Dedup(Closest(enclosing, targets)), old(blocks)));
          seen := seen + {id};
          var ran := ProcessNext(old(blocks), old(bindings), processed, id);
          processed := processed + [id];
          if !ran {
            threw := true;
            return;
          }
        } else if answer.Some? {
          DedupFromCons(answer.value, Closest(enclosing, targets[i + 1..]), seen);
        } else {
          assert Closest(enclosing, targets[i..]) == Closest(enclosing, targets[i + 1..]);
        }
      }
    }

    /**
     * The pass of `init` over `document.querySelectorAll('.AnswerItem')`,
     * given in document order: `answers.forEach(processAnswer)`.
     */
    method Bootstrap(answers: seq<BlockId>)
      requires Valid()
      modifies this
      ensures Valid()
      ensures enclosing == old(enclosing)
      ensures blocks == ReconcileAll(old(blocks), answers)
      ensures bindings == old(bindings) + NewBindings(old(blocks), answers)
    {
      for i := 0 to |answers|
        invariant Valid() && enclosing == old(enclosing)
        invariant blocks == ReconcileAll(old(blocks), answers[..i])
        invariant bindings == old(bindings) + NewBindings(old(blocks), answers[..i])
      {
        assert answers[..i + 1] == answers[..i] + [answers[i]];
        var _ := ProcessNext(old(blocks), old(bindings), answers[..i], answers[i]);
      }
      assert answers[..|answers|] == answers;
    }

    /**
     * The answers whose button a keydown event clicks: every registered
     * listener runs, including those whose button has since been removed.
     */
    function ShortcutTargets(altKey: bool, key: string): (r: seq<BlockId>)
      reads this
      ensures altKey && (key == "s" || key == "S") ==> r == bindings
      ensures !(altKey && (key == "s" || key == "S")) ==> r == []
    {
      if IsSelectShortcut(altKey, key) then bindings else []
    }

    /**
     * A change the host page makes to one answer: its presence in the
     * document, its expand affordance, its header, and how many of the
     * script's buttons survive it (re-rendering the header drops the button
     * inside it). The host never adds a button of the script's.
     */
    method HostUpdate(id: BlockId, connected: bool, hasExpandAffordance: bool, header: Option<Header>, buttons: nat)
      requires Valid() && id in blocks
      requires buttons <= blocks[id].buttons
      modifies this
      ensures Valid()
      ensures blocks == old(blocks)[id := Block(connected, hasExpandAffordance, header, buttons)]
      ensures enclosing == old(enclosing) && bindings == old(bindings)
    {
      blocks := blocks[id := Block(connected, hasExpandAffordance, header, buttons)];
    }
  }
}
