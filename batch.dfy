/**
 * The pure part of one mutation batch of the observer callback: each target
 * is mapped through `closest` to the answer block that encloses it, if any,
 * and the blocks are taken once each, in order of first occurrence, the way
 * the loop over the batch and its fresh `processed` set take them.
 */
module Batch {

  /** A node of the host document, as a mutation record's `target`. */
  type NodeId = nat

  /** An answer block (`.AnswerItem`) of the host document. */
  type BlockId = nat

  /** The enclosing answers of `targets`, in order; targets outside every answer are skipped. */
  function Closest(enclosing: map<NodeId, BlockId>, targets: seq<NodeId>): (r: seq<BlockId>)
    ensures |r| <= |targets|
  {
    if targets == [] then []
    else (if targets[0] in enclosing then [enclosing[targets[0]]] else []) + Closest(enclosing, targets[1..])
  }

  /** The answers found are exactly the enclosing answers of the targets. */
  lemma {:induction false} ClosestMembers(enclosing: map<NodeId, BlockId>, targets: seq<NodeId>)
    ensures forall b :: b in Closest(enclosing, targets) <==>
      exists t :: t in targets && t in enclosing && enclosing[t] == b
  {
    if targets != [] {
      assert forall t :: t in targets <==> t == targets[0] || t in targets[1..];
      ClosestMembers(enclosing, targets[1..]);
    }
  }

  /** Taking one more target off the front of the batch. */
  lemma ClosestAt(enclosing: map<NodeId, BlockId>, targets: seq<NodeId>, i: nat)
    requires i < |targets|
    ensures Closest(enclosing, targets[i..]) ==
      (if targets[i] in enclosing then [enclosing[targets[i]]] else []) + Closest(enclosing, targets[i + 1..])
  {
    assert targets[i..][1..] == targets[i + 1..];
  }

  /** The elements of `s` not in `seen`, each once, where it first occurs. */
  function DedupFrom(s: seq<BlockId>, seen: set<BlockId>): (r: seq<BlockId>)
  {
    if s == [] then []
    else if s[0] in seen then DedupFrom(s[1..], seen)
    else [s[0]] + DedupFrom(s[1..], seen + {s[0]})
  }

  lemma DedupFromCons(x: BlockId, rest: seq<BlockId>, seen: set<BlockId>)
    ensures DedupFrom([x] + rest, seen) == if x in seen then DedupFrom(rest, seen) else [x] + DedupFrom(rest, seen + {x})
  {
    assert ([x] + rest)[1..] == rest;
  }

  /** The distinct elements of `s`, in order of first occurrence. */
  function Dedup(s: seq<BlockId>): (r: seq<BlockId>)
  {
    DedupFrom(s, {})
  }

  ghost predicate Distinct(s: seq<BlockId>)
  {
    forall i, j :: 0 <= i < j < |s| ==> s[i] != s[j]
  }

  /** The position of the first occurrence of `x` in `s`. */
  function IndexOf(s: seq<BlockId>, x: BlockId): (k: nat)
    requires x in s
    ensures k < |s| && s[k] == x
    ensures forall j :: 0 <= j < k ==> s[j] != x
  {
    if s[0] == x then 0 else 1 + IndexOf(s[1..], x)
  }

  lemma {:induction false} DedupFromMembers(s: seq<BlockId>, seen: set<BlockId>)
    ensures forall x :: x in DedupFrom(s, seen) <==> x in s && x !in seen
  {
    if s != [] {
      assert forall x :: x in s <==> x == s[0] || x in s[1..];
      if s[0] in seen {
        DedupFromMembers(s[1..], seen);
      } else {
        DedupFromMembers(s[1..], seen + {s[0]});
      }
    }
  }

  lemma {:induction false} DedupFromDistinct(s: seq<BlockId>, seen: set<BlockId>)
    ensures Distinct(DedupFrom(s, seen))
  {
    if s != [] {
      if s[0] in seen {
        DedupFromDistinct(s[1..], seen);
      } else {
        var rest := DedupFrom(s[1..], seen + {s[0]});
        DedupFromDistinct(s[1..], seen + {s[0]});
        DedupFromMembers(s[1..], seen + {s[0]});
        assert s[0] !in rest;
        var r := [s[0]] + rest;
        forall i, j | 0 <= i < j < |r| ensures r[i] != r[j] {
          if i == 0 {
            assert r[j] == rest[j - 1];
          } else {
            assert r[i] == rest[i - 1] && r[j] == rest[j - 1];
          }
        }
      }
    }
  }

  lemma {:induction false} DedupFromOrder(s: seq<BlockId>, seen: set<BlockId>)
    ensures forall x :: x in DedupFrom(s, seen) ==> x in s
    ensures forall i, j :: 0 <= i < j < |DedupFrom(s, seen)| ==>
      IndexOf(s, DedupFrom(s, seen)[i]) < IndexOf(s, DedupFrom(s, seen)[j])
  {
    DedupFromMembers(s, seen);
    if s != [] {
      var r := DedupFrom(s, seen);
      var t := s[1..];
      if s[0] in seen {
        DedupFromOrder(t, seen);
        DedupFromMembers(t, seen);
        forall i, j | 0 <= i < j < |r| ensures IndexOf(s, r[i]) < IndexOf(s, r[j]) {
          assert r[i] != s[0] && r[j] != s[0];
        }
      } else {
        var rest := DedupFrom(t, seen + {s[0]});
        DedupFromOrder(t, seen + {s[0]});
        DedupFromMembers(t, seen + {s[0]});
        assert r == [s[0]] + rest;
        forall i, j | 0 <= i < j < |r| ensures IndexOf(s, r[i]) < IndexOf(s, r[j]) {
          assert r[j] == rest[j - 1] && r[j] != s[0];
          if i > 0 {
            assert r[i] == rest[i - 1] && r[i] != s[0];
          }
        }
      }
    }
  }

  /**
   * `Dedup(s)` holds every element of `s` exactly once, and in the order of
   * their first occurrences in `s`.
   */
  lemma DedupSpec(s: seq<BlockId>)
    ensures forall x :: x in Dedup(s) <==> x in s
    ensures Distinct(Dedup(s))
    ensures forall i, j :: 0 <= i < j < |Dedup(s)| ==> IndexOf(s, Dedup(s)[i]) < IndexOf(s, Dedup(s)[j])
  {
    DedupFromMembers(s, {});
    DedupFromDistinct(s, {});
    DedupFromOrder(s, {});
  }
}
