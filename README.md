# Named-logger registry

A Dafny model of the logger registry of the Go package `log`
(`registry.go`). The registry is a process-wide table from logger name to
logger object, written once per name:

- `Register(name, description)` returns the logger already stored under
  `name` if there is one; otherwise it creates a logger with that name and
  description and stores it under the logger's own name.
- `GetLogger(name)` looks a name up and yields nil when it is absent.
- `Loggers()` takes a snapshot of every stored logger, in no promised order.

The model is one module, `Log`, in `registry.dfy`:

- `Logger` is a class, because the registry hands out shared references and
  idempotence is about object identity. Its name and description are
  constants.
- `Registry` is a class whose field `loggers: map<string, Logger>` is updated
  in place by `Registry.Register`. `Registry.Valid()` says that every entry
  is stored under its logger's own `Name()`. Every operation preserves it.
- The in-place update of `registry.Register` is specified by the pure
  function `Stored`.
- The nil pointer returned for an absent name is `None` of `Option`.
- The process-global `reg` becomes a `Registry` built by the constructor,
  which starts empty. The package-level functions take it as a parameter.
- `Registry.Loggers` keeps the source's loop. Each step picks an arbitrary
  key not yet visited, which stands for Go's unspecified map iteration
  order. A ghost out-parameter records the order in which keys were visited.
- Two client methods, `RegisterTwice` and `RegisterThree`, state the
  idempotence and enumeration properties that hold across several calls.

## Model

| member | source | states |
|---|---|---|
| `Log.Logger.constructor` | registry.go:29 | the factory `newLogger(name, description)`, called for an absent name, yields a logger whose `Name()` and description are the ones given |
| `Log.Registry.constructor` | registry.go:42 | the global registry starts as an empty table, which is trivially well keyed |
| `Log.Registry.GetLogger` | registry.go:63-69 | the result is absent exactly when the name has no entry; otherwise it is the stored logger, and in a well-keyed table that logger's `Name()` is the name looked up; it reads and never changes the table |
| `Log.Registry.Loggers` | registry.go:50-61 | the snapshot has one element per entry, and its elements are exactly the table's values; it lists the entries in some visiting order of distinct keys covering the whole key set; in a well-keyed table no logger appears twice; the table is not changed |
| `Log.DistinctCard` | registry.go:55-58 | a visiting order without repeated keys has as many steps as there are keys, which gives the snapshot its size |
| `Log.Stored` | registry.go:76 | storing a logger puts it under its own `Name()`, overwriting any previous entry for that key; every other key keeps its entry; the key set only grows; a well-keyed table stays well keyed |
| `Log.Registry.Register` | registry.go:71-77 | the new table is the old one with the logger stored under its own name; no key is removed; the well-keyed invariant is preserved |
| `Log.Register` | registry.go:21-33 | a name already present returns the stored logger and leaves the table unchanged; an absent name gets a fresh logger with that name and description, stored under that name; afterwards the name looks up the returned logger, every other name looks up what it did before, the key set gains exactly that name, and the invariant is preserved |
| `Log.Loggers` | registry.go:35-36 | the package-level snapshot of the global registry: one element per entry, each taken from a distinct key in a visiting order that covers the whole key set, so its elements are exactly the table's values and it has as many elements as entries; no duplicates in a well-keyed table |
| `Log.GetLogger` | registry.go:38-39 | the package-level lookup on the global registry: absent exactly when the name has no entry, otherwise the stored logger, whose `Name()` is the name looked up in a well-keyed table; it reads and never changes the table |
| `Log.RegisterTwice` | registry.go:21-33 | registering a name twice returns the same object both times; its description is the one already stored, or the first call's if the name was new; the second description has no effect; the name then looks up that object |
| `Log.RegisterThree` | registry.go:23-36 | a fresh registry given three distinct names holds exactly those keys and stays well keyed; each name looks up the logger returned for it, which carries that name; any other name looks up absent; the snapshot has three distinct elements, exactly the three loggers returned |
| `Log.SnapshotOfThree` | registry.go:55-58 | a snapshot with one element per entry of a table holding three distinct keys has exactly three elements, and they are exactly the three loggers stored under those keys |

## Left out

- The `sync.RWMutex` (registry.go:46, 52-53, 65-66, 73-74) is not modelled. Every operation is treated as atomic and the calls as sequential.
- The check-then-act race in package-level `Register` is not modelled. Lookup and insert take separate locks there, so two concurrent first registrations of one name could each create a logger, with the last insert kept. Under the sequential model this cannot happen, and the model proves the single-instance-per-name behaviour.
- `Logger`, `newLogger` and `Name()` are defined outside `registry.go`, and they are not part of this model. `Log.Logger` stands in for them: it is a class whose constructor records the name and description, and whose `Name()` returns the name given at construction.
- The process-global variable `reg` is modelled as an explicitly constructed `Registry` passed to the package-level operations. The model does not capture that there is only one registry per process.
- Go's randomized map iteration order in `Loggers()` is not modelled. The snapshot is specified up to order, through the ghost visiting order; the model does not say which order is chosen.
