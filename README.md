# adaptive utilities, modelled in Dafny

This project models the helpers in `adaptive/utils.py` of the *adaptive*
package (adaptive sampling of expensive functions). The helpers are used across the
package's learners:

- `named_product(**items)`: the cartesian product of named value sequences.
  The result is a list of dicts, one per combination, with the last keyword
  varying fastest (module `NamedProduct`, file `named_product.dfy`).
  `itertools.product` is modelled by a recursive reference function. The
  combination at position *i* is proved to be the one selected by the
  mixed-radix digits of *i*.
- `cache_latest(f)`: the decorator that stores the latest result of a
  learner method in the owner's `_cache` dictionary, keyed by the method's
  name, creating the dictionary on first use (module `CacheLatest`, file
  `cache_latest.dfy`). The owner is a class whose `cache` field is an
  `Option` of a map, because `_cache` may be absent.
- `restore(*learners)`: the context manager that snapshots each learner's
  state with `__getstate__` and always writes the snapshots back with
  `__setstate__` in a `finally` (module `Restore`, file `restore.dfy`).
  Learners are objects with a `state` field. The with-block body is
  arbitrary code: it may set any learner to any state, and it may raise.
- `_RequireAttrsABCMeta.__call__`: the post-construction check that every
  annotated attribute is set with the annotated type. It raises at the
  first annotation that fails (module `RequireAttrs`, file
  `require_attrs.dfy`). The annotations checked are `obj.__annotations__`
  as Python resolves it: the annotation dict of the nearest class in the
  method resolution order that declares one. Base-class annotations are not
  merged into it. `isinstance` is an arbitrary predicate given as a
  parameter.

Keyword arguments and class annotations are Python dicts, so their keys
are distinct and ordered. They are modelled as sequences of
`(name, value)` pairs. The two lemmas that need distinct names,
`AsDictDistinct` and `NamedProductDict`, require them. Each record of `named_product` is a dict built from zipping the names with one combination, modelled as its
ordered sequence of entries (`Record`). `AsDict` turns a record into the
map it denotes, with the dict constructor's rule that a later pair wins.

## Model

| member | source | states |
|---|---|---|
| `NamedProduct.Product` | adaptive/utils.py:16 | `itertools.product(*vals)` as a recursive reference definition: each element of the first pool in turn, followed by every combination of the remaining pools |
| `NamedProduct.Zip` | adaptive/utils.py:16 | `zip` of the names and one combination: the pairs of names and values at equal positions, up to the shorter of the two |
| `NamedProduct.AsDict` | adaptive/utils.py:16 | `dict(pairs)`: the map the pairs denote, where a later pair for the same key overwrites an earlier one |
| `NamedProduct.NamedProductOf` | adaptive/utils.py:13-16 | `named_product` itself: one record `Zip(names, res)` for each combination `res` of `Product` of the value sequences, in `Product`'s order |
| `NamedProduct.ProductLength` | adaptive/utils.py:16 | `product(*vals)` yields exactly the product of the pools' lengths combinations; with no pools it yields the single empty combination |
| `NamedProduct.ProductEmpty` | adaptive/utils.py:16 | the product is empty if and only if some pool is empty |
| `NamedProduct.ProductAt` | adaptive/utils.py:16 | every choice of one element per pool occurs, at the position given by its mixed-radix rank |
| `NamedProduct.ProductIsMixedRadix` | adaptive/utils.py:16 | combination *i* takes from each pool the element at that pool's mixed-radix digit of *i* (last pool least significant) |
| `NamedProduct.ProductMembers` | adaptive/utils.py:16 | every combination has one entry per pool, and entry *k* is an element of pool *k* |
| `NamedProduct.DigitsRank` | adaptive/utils.py:16 | the digits of each position below the count form a valid index tuple whose rank is that position |
| `NamedProduct.RankDigits` | adaptive/utils.py:16 | every valid index tuple is the digits of its rank; with `DigitsRank` this makes positions and index tuples correspond one to one |
| `NamedProduct.RankMonotone` | adaptive/utils.py:16 | a lexicographically smaller index tuple has a smaller rank |
| `NamedProduct.ProductOrder` | adaptive/utils.py:16 | combinations are listed in strictly increasing lexicographic order of their index tuples |
| `NamedProduct.NamedProductLength` | adaptive/utils.py:13-16 | `named_product` returns one record per combination, the product of the lengths; with no keyword arguments it returns one empty record |
| `NamedProduct.NamedProductEmpty` | adaptive/utils.py:16 | the result is empty if and only if some keyword was given an empty sequence |
| `NamedProduct.NamedProductRecord` | adaptive/utils.py:14-16 | record *i* has the keyword names as keys, each once and in argument order; the value under key *k* is the element of *k*'s sequence at *k*'s mixed-radix digit of *i*, so it belongs to that sequence |
| `NamedProduct.NamedProductComplete` | adaptive/utils.py:14-16 | every combination of the given values occurs as a record, at its mixed-radix rank |
| `NamedProduct.NamedProductOrder` | adaptive/utils.py:16 | records come in increasing lexicographic order of their index tuples: the last keyword varies fastest |
| `NamedProduct.NamedProductDict` | adaptive/utils.py:16 | with distinct names, record *i* read as a dict has exactly the keyword names as keys; the value under each name is the element of its sequence at that name's mixed-radix digit of *i*, so one of the values given for it |
| `CacheLatest.Store` | adaptive/utils.py:36-38 | after one wrapper call the dictionary maps the method's name to its result; other entries are kept; a missing `_cache` starts out empty |
| `CacheLatest.Replay` | adaptive/utils.py:34-39 | the `_cache` attribute after a sequence of wrapper calls: each call creates the dictionary if it is missing; a call that returned stores its value under the method's name; a call that raised stores nothing |
| `CacheLatest.Latest` | adaptive/utils.py:38-39 | an independent reference: the value of the most recent call of a method that returned, if there was one |
| `CacheLatest.ReplayKeepsLatest` | adaptive/utils.py:29-39 | after any sequence of calls, raising or not, `_cache` exists once a call has been made; it holds each method's latest returned result; methods that never returned keep their earlier entries |
| `CacheLatest.LatestOverwrites` | adaptive/utils.py:38 | a second call of the same method replaces the first result outright |
| `CacheLatest.Owner.Call` | adaptive/utils.py:34-39 | the wrapper returns exactly the wrapped method's result, or propagates its exception; `_cache` is created only when absent, before the method runs; after a return the new `_cache` is `Store` of the old one (only this method's entry changed); after a raise it is the old one, or a new empty one |
| `Restore.Learner.GetState` | adaptive/utils.py:21 | `__getstate__` returns the learner's current state |
| `Restore.Learner.SetState` | adaptive/utils.py:26 | `__setstate__` makes the given state the learner's state |
| `Restore.Snapshot` | adaptive/utils.py:21 | the snapshot lists, in order, the state of each learner on entry |
| `Restore.Rollback` | adaptive/utils.py:24-26 | each learner gets back the snapshot paired with it by `zip`; a learner passed twice gets the one at its last position |
| `Restore.Body` | adaptive/utils.py:23 | the with-block body: arbitrary code that may set each learner to any state and may raise; it promises nothing |
| `Restore.WithRestore` | adaptive/utils.py:19-26 | whatever the body does to the learners, and whether or not it raises, every learner ends in the state it had on entry |
| `RequireAttrs.Validate` | adaptive/utils.py:75-85 | the reference definition of the check: walk the annotations in order, stop at the first one whose attribute is missing (`MissingAttr`) or of the wrong type (`WrongType`), and return `Ok` when none fails |
| `RequireAttrs.ValidateOk` | adaptive/utils.py:75-86 | construction returns the object if and only if every attribute named in `obj.__annotations__` is set and is an instance of its annotated type |
| `RequireAttrs.ValidateAt` | adaptive/utils.py:75-85 | when annotation *i* is the first one not met, it decides the error: AttributeError (`MissingAttr`) if the attribute is missing, TypeError (`WrongType`) if it has the wrong type |
| `RequireAttrs.ValidateFailure` | adaptive/utils.py:75-85 | every failure comes from a first annotation that is not met, and all earlier annotations are met |
| `RequireAttrs.Call` | adaptive/utils.py:73-86 | the loop over the annotations returns the object or raises exactly the verdict of `Validate` |

## Left out

- `save` and `load` (adaptive/utils.py:44-62): file-system I/O, pickle, gzip and an atomic-write helper from another package.
- `copy_docstring_from` (adaptive/utils.py:65-69): it only copies function metadata, so there is no behaviour to state.
- Python's decorator, context-manager and metaclass machinery (`functools.wraps`, `contextmanager`, `abc.ABCMeta`, `hasattr`/`getattr`): only their effect on data is modelled.
- `CacheLatest.Owner.Call`: the wrapped method's arguments and its call are not modelled. How the call ended (the value it returned, or that it raised) is a parameter, and the method is taken not to touch `_cache` itself.
- `Restore.Learner`: what `__getstate__` and `__setstate__` do inside a learner is not part of this model. A snapshot is taken to be a value that the body cannot change.
- `RequireAttrs.Call`: the constructor call `super().__call__` is not modelled. Its result is given as the `Instance`. `getattr` is modelled as a finite map of the attributes it finds, so properties and `__getattr__` hooks are out of scope.
- `RequireAttrs.Call`: the text of the two exception messages is not modelled. The verdict carries the attribute name and, for a TypeError, the expected type and the value found.
- The learner tests, adaptive/tests/test_cquad.py and adaptive/tests/test_balancing_learner.py: the quadrature engine, the 1-D sampler and the balancing learner they exercise are not part of this model. Their behaviour is floating-point numerics.
