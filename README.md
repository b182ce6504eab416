# Bayesian network model

A Dafny model of the network layer of a small exact-inference program for
discrete Bayesian networks over boolean variables
(`proiect_retele_bayes_1410B.py`).

- `Nodes` (file `nodes.dfy`) models `BayesNode`: a node has a variable name,
  a display label, an ordered list of parents and a conditional probability
  table (CPT) from parent rows (one boolean per parent, in parent order) to
  P(variable = true | row). `Nodes.P(node, value, event)` is the lookup
  `p(value, event)`: it builds the row from the event's values of the
  parents (`Nodes.Key`), reads the table with the fallback 0.01 when the row
  is missing, and returns that probability for `true` and its complement for
  `false`. A node without parents uses the empty row.
- `Nets` (file `nets.dfy`) models `BayesNet`: the ordered node list, the
  variable names derived from it in the same order (`Nets.Variables`), the
  name-to-node map in which a later node replaces an earlier one with the
  same name (`Nets.NodeMap`), and `Nets.GetNode`, which returns the node or
  `None`.
- `Wrappers` (file `wrappers.dfy`) holds the `Option` datatype.

Probabilities are exact `real`s. The event must give a value to every parent
of the node (`Nodes.Covers`); in the program a missing parent raises a key
error, so this is a precondition of the lookup, not an error result.

The fallback for a row missing from the table is 0.01 for every node, with or
without parents, as the code does on both branches
(`proiect_retele_bayes_1410B.py:16` and `:19`).

## Model

| member | source | states |
|---|---|---|
| `Nodes.Key` | proiect_retele_bayes_1410B.py:18 | the row has one entry per parent and its i-th entry is the event's value of the i-th parent |
| `Nodes.KeyInjective` | proiect_retele_bayes_1410B.py:18 | two events select the same row if and only if they agree on every parent |
| `Nodes.EventOf` | proiect_retele_bayes_1410B.py:18 | the inverse of the row construction: an event defined exactly on the parents, giving each parent its position's value when the parents are distinct |
| `Nodes.KeyOfEventOf` | proiect_retele_bayes_1410B.py:18 | with distinct parents, every row of the right length is the row of some event (every table entry is reachable) |
| `Nodes.EventOfKey` | proiect_retele_bayes_1410B.py:18 | rebuilding an event from its row gives back the event restricted to the parents |
| `Nodes.Complement` | proiect_retele_bayes_1410B.py:20 | P(true) + P(false) == 1 for every node and every event covering its parents |
| `Nodes.UnitInterval` | proiect_retele_bayes_1410B.py:14-20 | when the looked-up probability of true lies in [0, 1], both results lie in [0, 1] |
| `Nodes.WellFormedCptBounds` | proiect_retele_bayes_1410B.py:14-20 | a table holding only values in [0, 1] gives a result in [0, 1] for every event and value, the fallback included |
| `Nodes.NoParentsIgnoresEvent` | proiect_retele_bayes_1410B.py:15-16 | a node without parents gives the same result for every event: the empty-row entry, or 0.01 / 0.99 when it is absent |
| `Nodes.LookupHit` | proiect_retele_bayes_1410B.py:19-20 | a row present in the table yields the stored value for true and one minus it for false, unvalidated |
| `Nodes.LookupMiss` | proiect_retele_bayes_1410B.py:19-20 | a row absent from the table yields 0.01 for true and 0.99 for false |
| `Nodes.ParentsOnly` | proiect_retele_bayes_1410B.py:14-19 | the result depends on the event only through the parents' values |
| `Nets.Variables` | proiect_retele_bayes_1410B.py:25 | the variable list has one name per node and its i-th entry is the i-th node's name |
| `Nets.NodeMap` | proiect_retele_bayes_1410B.py:26 | the map's keys are exactly the node names, and each name maps to the last node with that name |
| `Nets.GetNode` | proiect_retele_bayes_1410B.py:27-28 | a node is returned if and only if some node has the name; it then has that name and is the last such node; otherwise `None` |
| `Nets.GetNodeUnique` | proiect_retele_bayes_1410B.py:26-28 | with unique names, looking up the i-th node's name returns the i-th node |
| `Nets.VariablesMatchLookup` | proiect_retele_bayes_1410B.py:25-28 | a name is in the variable list if and only if lookup finds a node for it |

## Left out

- The graphical interface (`tkinter` imports, lines 1-2): presentation only.
- Loading the network definition from a configuration file (`json`, `os` imports, lines 3-4): file I/O whose parsing code is not part of this model.
- The enumeration / posterior computation (the `itertools` import, line 5): its code is not part of this model, so no joint-weight, posterior or normalisation function is stated.
- Floating-point arithmetic: probabilities are exact reals, so `1 - ptrue` is not rounded and 0.99 is exact.
- Dynamic typing: `value` is a boolean in the model; the program tests it for truth (line 20), so any truthy value selects `ptrue`.
- Dynamic typing: the event's values are booleans in the model. The program never tests them for truth; it puts them into the tuple key (line 18) and looks that key up in the table (line 19). Values equal to `True`/`False` (`1`, `0`, `1.0`, ...) match. Other hashable values miss the row and get 0.01. Unhashable values (a list, say) raise `TypeError` at line 19.
- Dynamic typing: the table's stored values are `real`s in the model. In the program a non-numeric stored value (a string, `None`) is returned unchanged when `value` is true, and `1 - ptrue` raises `TypeError` at line 20 when `value` is false.
- Dynamic typing: the parent list is a sequence in the model; the program tests it for truth (line 15), so a `None` parent list would also take the no-parent branch.
- The display label is kept as an uninterpreted field (`displayLabel`); it plays no role in any operation.
