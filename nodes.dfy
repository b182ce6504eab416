/**
 * One node of a discrete Bayesian network over boolean variables, and its
 * conditional-probability lookup `p(value, event)`.
 *
 * Probabilities are exact reals; the lenient policy for a parent combination
 * missing from the table is the single constant `Fallback`, used for nodes
 * with and without parents alike.
 */
module Nodes {

  /** The identifier of a boolean random variable. */
  type Name = string

  /** A (partial) assignment of boolean values to variables. */
  type Event = map<Name, bool>

  /** A key of a conditional probability table: one value per parent, in parent order. */
  type Row = seq<bool>

  /**
   * A node: its variable, a display label (no role in the lookup), its
   * ordered parents and its table from parent rows to P(variable = true | row).
   */
  datatype BayesNode = BayesNode(name: Name, displayLabel: string, parents: seq<Name>, cpt: map<Row, real>)

  /** P(variable = true) used when the table has no entry for the row. */
  const Fallback: real := 0.01

  /** The event assigns a value to every parent (otherwise the lookup fails). */
  predicate Covers(event: Event, parents: seq<Name>)
  {
    forall q :: q in parents ==> q in event
  }

  /** Two events give the same value to every parent. */
  predicate AgreeOn(e1: Event, e2: Event, parents: seq<Name>)
    requires Covers(e1, parents) && Covers(e2, parents)
  {
    forall q :: q in parents ==> e1[q] == e2[q]
  }

  /** Every value stored in the table is a probability. */
  predicate WellFormedCpt(cpt: map<Row, real>)
  {
    forall r :: r in cpt ==> 0.0 <= cpt[r] <= 1.0
  }

  /** No parent is listed twice. */
  predicate Distinct(parents: seq<Name>)
  {
    forall i, j :: 0 <= i < j < |parents| ==> parents[i] != parents[j]
  }

  /** The row selected by the event: the parents' values, position by position. */
  function Key(parents: seq<Name>, event: Event): (k: Row)
    requires Covers(event, parents)
    ensures |k| == |parents|
    ensures forall i :: 0 <= i < |parents| ==> k[i] == event[parents[i]]
  {
    if parents == [] then [] else [event[parents[0]]] + Key(parents[1..], event)
  }

  /** Table lookup with the fallback default. */
  function Get(cpt: map<Row, real>, key: Row): real
  {
    if key in cpt then cpt[key] else Fallback
  }

  /** The probability that the node's variable is true under the event. */
  function PTrue(node: BayesNode, event: Event): real
    requires Covers(event, node.parents)
  {
    if node.parents == [] then Get(node.cpt, [])
    else Get(node.cpt, Key(node.parents, event))
  }

  /** P(node's variable = value | the parents' values in event). */
  function P(node: BayesNode, value: bool, event: Event): real
    requires Covers(event, node.parents)
  {
    var ptrue := PTrue(node, event);
    if value then ptrue else 1.0 - ptrue
  }

  /**
   * The event that assigns row[i] to parents[i] and nothing else: the
   * inverse of `Key`. With a repeated parent the first position wins.
   */
  function EventOf(parents: seq<Name>, row: Row): (e: Event)
    requires |row| == |parents|
    ensures e.Keys == set q | q in parents
    ensures Distinct(parents) ==> forall i :: 0 <= i < |parents| ==> e[parents[i]] == row[i]
  {
    if parents == [] then map[]
    else
      var e := EventOf(parents[1..], row[1..])[parents[0] := row[0]];
      assert forall q :: q in parents[1..] ==> q in parents;
      e
  }

  /** The event restricted to the parents. */
  function Restrict(event: Event, parents: seq<Name>): (e: Event)
    requires Covers(event, parents)
  {
    map q | q in parents :: event[q]
  }

  // ---------------------------------------------------------------------
  // Properties of the lookup

  /** The two values of the variable have complementary probabilities. */
  lemma Complement(node: BayesNode, event: Event)
    requires Covers(event, node.parents)
    ensures P(node, true, event) + P(node, false, event) == 1.0
    ensures P(node, false, event) == 1.0 - P(node, true, event)
  {
  }

  /** A probability looked up from the table keeps both results in [0, 1]. */
  lemma UnitInterval(node: BayesNode, event: Event)
    requires Covers(event, node.parents)
    requires 0.0 <= PTrue(node, event) <= 1.0
    ensures 0.0 <= P(node, true, event) <= 1.0
    ensures 0.0 <= P(node, false, event) <= 1.0
  {
  }

  /**
   * A table holding only probabilities yields probabilities for every event,
   * since the fallback is one too.
   */
  lemma WellFormedCptBounds(node: BayesNode, value: bool, event: Event)
    requires Covers(event, node.parents)
    requires WellFormedCpt(node.cpt)
    ensures 0.0 <= P(node, value, event) <= 1.0
  {
  }

  /**
   * A node without parents ignores the event: its result is the prior stored
   * under the empty row, or the fallback when there is none.
   */
  lemma NoParentsIgnoresEvent(node: BayesNode, value: bool, e1: Event, e2: Event)
    requires node.parents == []
    ensures P(node, value, e1) == P(node, value, e2)
    ensures [] in node.cpt ==> P(node, true, e1) == node.cpt[[]]
    ensures [] !in node.cpt ==> P(node, true, e1) == Fallback && P(node, false, e1) == 1.0 - Fallback
  {
  }

  /** A row present in the table is returned as stored: no clamping, no check. */
  lemma LookupHit(node: BayesNode, event: Event)
    requires Covers(event, node.parents)
    requires Key(node.parents, event) in node.cpt
    ensures P(node, true, event) == node.cpt[Key(node.parents, event)]
    ensures P(node, false, event) == 1.0 - node.cpt[Key(node.parents, event)]
  {
  }

  /** A row missing from the table gives the fallback (0.01) for true and its complement for false. */
  lemma LookupMiss(node: BayesNode, event: Event)
    requires Covers(event, node.parents)
    requires Key(node.parents, event) !in node.cpt
    ensures P(node, true, event) == Fallback
    ensures P(node, false, event) == 1.0 - Fallback
  {
  }

  /**
   * Two events select the same row exactly when they agree on every parent.
   */
  lemma KeyInjective(parents: seq<Name>, e1: Event, e2: Event)
    requires Covers(e1, parents) && Covers(e2, parents)
    ensures Key(parents, e1) == Key(parents, e2) <==> AgreeOn(e1, e2, parents)
  {
  }

  /** The lookup reads nothing of the event but the parents' values. */
  lemma ParentsOnly(node: BayesNode, value: bool, e1: Event, e2: Event)
    requires Covers(e1, node.parents) && Covers(e2, node.parents)
    requires AgreeOn(e1, e2, node.parents)
    ensures P(node, value, e1) == P(node, value, e2)
  {
    KeyInjective(node.parents, e1, e2);
  }

  /** Every row of the right length is selected by some event (distinct parents). */
  lemma KeyOfEventOf(parents: seq<Name>, row: Row)
    requires |row| == |parents| && Distinct(parents)
    ensures Covers(EventOf(parents, row), parents)
    ensures Key(parents, EventOf(parents, row)) == row
  {
  }

  /** Rebuilding the event from its row recovers the event on the parents. */
  lemma {:induction false} EventOfKey(parents: seq<Name>, event: Event)
    requires Covers(event, parents)
    ensures EventOf(parents, Key(parents, event)) == Restrict(event, parents)
  {
    if parents != [] {
      var rest := parents[1..];
      assert Covers(event, rest) by {
        assert forall q :: q in rest ==> q in parents;
      }
      EventOfKey(rest, event);
      assert Key(parents, event)[1..] == Key(rest, event);
    }
  }
}
