/**
 * The named-logger registry of the Go package `log`: a process-wide table
 * from logger name to logger object, written once per name.
 *
 * Every operation is modelled as atomic; the readers-writer lock that makes
 * them so in the program is not part of this model.
 */
module Log {

  /** Absence of a logger, the program's nil pointer, is `None`. */
  datatype Option<T> = None | Some(value: T)

  /**
   * A logger handle. Only its identity (object reference), its name and its
   * description matter to the registry; what a logger does is defined
   * elsewhere and is not part of this model.
   */
  class Logger {
    const name: string
    const description: string

    /** The factory `newLogger(name, description)`. */
    constructor (name: string, description: string)
      ensures this.name == name && this.description == description
    {
      this.name := name;
      this.description := description;
    }

    /** The accessor `Name()`: the name given at construction. */
    function Name(): string
    {
      name
    }
  }

  predicate Distinct<T(==)>(s: seq<T>)
  {
    forall i, j :: 0 <= i < j < |s| ==> s[i] != s[j]
  }

  function Elems<T>(s: seq<T>): set<T>
  {
    set x | x in s
  }

  /** A sequence without repetitions has as many elements as its set. */
  lemma {:induction false} DistinctCard<T>(s: seq<T>)
    requires Distinct(s)
    ensures |Elems(s)| == |s|
  {
    if |s| > 0 {
      assert Distinct(s[1..]);
      DistinctCard(s[1..]);
      assert Elems(s) == {s[0]} + Elems(s[1..]);
      assert s[0] !in Elems(s[1..]);
    }
  }

  /** Every entry of the table is stored under its logger's own name. */
  ghost predicate WellKeyed(m: map<string, Logger>)
  {
    forall k :: k in m ==> m[k].Name() == k
  }

  /**
   * The table after storing `logger` under `logger.Name()`: that key now maps
   * to `logger` (whatever it held before), every other entry is unchanged,
   * and a well-keyed table stays well keyed.
   */
  function Stored(m: map<string, Logger>, logger: Logger): (r: map<string, Logger>)
    ensures r.Keys == m.Keys + {logger.Name()}
    ensures r[logger.Name()] == logger
    ensures forall k :: k in m && k != logger.Name() ==> k in r && r[k] == m[k]
    ensures WellKeyed(m) ==> WellKeyed(r)
  {
    m[logger.Name() := logger]
  }

  /** The type `registry`: the table of all registered loggers. */
  class Registry {
    var loggers: map<string, Logger>

    ghost predicate Valid()
      reads this
    {
      WellKeyed(loggers)
    }

    /** The global `reg` starts as an empty table. */
    constructor ()
      ensures loggers == map[] && Valid()
    {
      loggers := map[];
    }

    /**
     * `(*registry).GetLogger`: the logger registered under `name`, or `None`
     * when nothing is. The logger found carries the name it was looked up by.
     */
    function GetLogger(name: string): (r: Option<Logger>)
      reads this
      ensures r.None? <==> name !in loggers
      ensures r.Some? ==> name in loggers && r.value == loggers[name]
      ensures Valid() && r.Some? ==> r.value.Name() == name
    {
      if name in loggers then Some(loggers[name]) else None
    }

    /**
     * `(*registry).Loggers`: a snapshot of every registered logger, one per
     * entry, in an order the program does not promise. The ghost `keys` is
     * the order in which the entries were visited; when every entry is keyed
     * by its own name (as `Register` keeps it), no logger appears twice.
     */
    method Loggers() returns (ls: seq<Logger>, ghost keys: seq<string>)
      ensures |ls| == |loggers|
      ensures forall l :: l in ls <==> l in loggers.Values
      ensures Valid() ==> Distinct(ls)
      ensures Distinct(keys) && Elems(keys) == loggers.Keys && |keys| == |ls|
      ensures forall i :: 0 <= i < |ls| ==> keys[i] in loggers && ls[i] == loggers[keys[i]]
    {
      ls, keys := [], [];
      var remaining := loggers.Keys;
      while remaining != {}
        invariant Distinct(keys) && |keys| == |ls|
        invariant Elems(keys) + remaining == loggers.Keys
        invariant Elems(keys) !! remaining
        invariant forall i :: 0 <= i < |ls| ==> keys[i] in loggers && ls[i] == loggers[keys[i]]
        decreases remaining
      {
        var k :| k in remaining;
        ls, keys := ls + [loggers[k]], keys + [k];
        remaining := remaining - {k};
      }
      DistinctCard(keys);
      assert |loggers| == |loggers.Keys|;
      forall l | l in loggers.Values
        ensures l in ls
      {
        var k :| k in loggers && loggers[k] == l;
        assert k in Elems(keys);
        var i :| 0 <= i < |keys| && keys[i] == k;
        assert ls[i] == l;
      }
      if Valid() {
        forall i, j | 0 <= i < j < |ls|
          ensures ls[i] != ls[j]
        {
          assert ls[i].Name() == keys[i] && ls[j].Name() == keys[j];
        }
      }
    }

    /**
     * `(*registry).Register`: stores `logger` under its own name, replacing
     * any previous entry for that name and leaving the others as they were.
     */
    method Register(logger: Logger)
      modifies this
      ensures loggers == Stored(old(loggers), logger)
      ensures old(loggers).Keys <= loggers.Keys
      ensures old(Valid()) ==> Valid()
    {
      loggers := loggers[logger.Name() := logger];
    }
  }

  /**
   * Package-level `Register` on the registry `reg`: the logger already
   * registered under `name` if there is one, the table then unchanged;
   * otherwise a new logger with this name and description, stored under
   * `name`. Either way `name` then looks up the returned logger, every other
   * name looks up what it did before, and no entry is removed.
   */
  method Register(reg: Registry, name: string, description: string) returns (l: Logger)
    modifies reg
    ensures name in old(reg.loggers) ==> l == old(reg.loggers[name]) && reg.loggers == old(reg.loggers)
    ensures name !in old(reg.loggers) ==>
      && fresh(l) && l.Name() == name && l.description == description
      && reg.loggers == Stored(old(reg.loggers), l)
    ensures reg.GetLogger(name) == Some(l)
    ensures reg.loggers.Keys == old(reg.loggers.Keys) + {name}
    ensures forall n :: n != name ==> reg.GetLogger(n) == old(reg.GetLogger(n))
    ensures old(reg.Valid()) ==> reg.Valid()
  {
    var found := reg.GetLogger(name);
    if found.Some? {
      return found.value;
    }
    l := new Logger(name, description);
    reg.Register(l);
  }

  /** Package-level `Loggers`: the snapshot of the registry `reg`. */
  method Loggers(reg: Registry) returns (ls: seq<Logger>, ghost keys: seq<string>)
    ensures |ls| == |reg.loggers|
    ensures forall l :: l in ls <==> l in reg.loggers.Values
    ensures reg.Valid() ==> Distinct(ls)
    ensures Distinct(keys) && Elems(keys) == reg.loggers.Keys && |keys| == |ls|
    ensures forall i :: 0 <= i < |ls| ==> keys[i] in reg.loggers && ls[i] == reg.loggers[keys[i]]
  {
    ls, keys := reg.Loggers();
  }

  /**
   * Package-level `GetLogger`: the lookup on the registry `reg`, absent
   * exactly when the name has no entry, otherwise the logger stored under it.
   */
  function GetLogger(reg: Registry, name: string): (r: Option<Logger>)
    reads reg
    ensures r.None? <==> name !in reg.loggers
    ensures r.Some? ==> name in reg.loggers && r.value == reg.loggers[name]
    ensures reg.Valid() && r.Some? ==> r.value.Name() == name
  {
    reg.GetLogger(name)
  }

  /**
   * Idempotence by name: registering the same name twice yields the same
   * logger both times, and its description is that of the first registration
   * that created it; the second description has no effect.
   */
  method RegisterTwice(reg: Registry, name: string, d1: string, d2: string)
    returns (first: Logger, second: Logger)
    modifies reg
    ensures first == second
    ensures first.description == if name in old(reg.loggers) then old(reg.loggers[name]).description else d1
    ensures reg.GetLogger(name) == Some(first)
    ensures reg.loggers.Keys == old(reg.loggers.Keys) + {name}
  {
    first := Register(reg, name, d1);
    second := Register(reg, name, d2);
  }

  /**
   * A snapshot of a well-keyed table with exactly three keys lists exactly
   * the three loggers stored under them, each once.
   */
  lemma SnapshotOfThree(m: map<string, Logger>, ls: seq<Logger>,
                        a: string, b: string, c: string, la: Logger, lb: Logger, lc: Logger)
    requires a != b && b != c && a != c
    requires m.Keys == {a, b, c} && m[a] == la && m[b] == lb && m[c] == lc
    requires |ls| == |m| && forall l :: l in ls <==> l in m.Values
    ensures forall l :: l in ls <==> l == la || l == lb || l == lc
    ensures |ls| == 3
  {
    assert |m| == |m.Keys| == 3;
    forall l | l in m.Values
      ensures l == la || l == lb || l == lc
    {
      var k :| k in m && m[k] == l;
    }
  }

  /**
   * A registry that starts empty and is given three distinct names through
   * `Register` holds exactly those names, each under the logger returned
   * for it: a name never registered looks up `None`, and the snapshot lists
   * exactly the three loggers returned.
   */
  method RegisterThree(a: string, b: string, c: string)
    returns (reg: Registry, la: Logger, lb: Logger, lc: Logger, ls: seq<Logger>)
    requires a != b && b != c && a != c
    ensures fresh(reg) && reg.loggers.Keys == {a, b, c} && reg.Valid()
    ensures reg.GetLogger(a) == Some(la) && reg.GetLogger(b) == Some(lb) && reg.GetLogger(c) == Some(lc)
    ensures la.Name() == a && lb.Name() == b && lc.Name() == c
    ensures forall n :: n != a && n != b && n != c ==> reg.GetLogger(n) == None
    ensures forall l :: l in ls <==> l == la || l == lb || l == lc
    ensures |ls| == 3 && Distinct(ls)
  {
    reg := new Registry();
    la := Register(reg, a, "");
    lb := Register(reg, b, "");
    assert reg.GetLogger(a) == Some(la);
    lc := Register(reg, c, "");
    assert reg.GetLogger(a) == Some(la) && reg.GetLogger(b) == Some(lb);
    assert reg.loggers.Keys == {a, b, c};
    ghost var keys;
    ls, keys := Loggers(reg);
    SnapshotOfThree(reg.loggers, ls, a, b, c, la, lb, lc);
  }
}
