/**
 The layered chart values of the GitOps verifiers: the recursive `merge` that lays a
 production overlay over the base values, and the fail-closed checks on the result.
 */
module ValuesOverlay {
  import opened Wrappers

  /** A parsed YAML value. Only `Dict` is merged; every other value is replaced whole. */
  datatype Tree =
    | Null
    | Bool(flag: bool)
    | Num(number: real)
    | Str(text: string)
    | List(items: seq<Tree>)
    | Dict(entries: map<string, Tree>)

  type Path = seq<string>

  /** Two dicts merge key by key; in every other case the upper value replaces the lower. */
  function Overlay(a: Tree, b: Tree): Tree
    decreases b
  {
    if a.Dict? && b.Dict? then
      Dict(map k | k in a.entries.Keys + b.entries.Keys ::
        if k !in b.entries then a.entries[k]
        else if k !in a.entries then b.entries[k]
        else Overlay(a.entries[k], b.entries[k]))
    else b
  }

  /** The entries of two overlaid dicts, key by key. */
  lemma OverlayEntries(a: Tree, b: Tree) returns (target: map<string, Tree>)
    requires a.Dict? && b.Dict?
    ensures Overlay(a, b) == Dict(target)
    ensures target.Keys == a.entries.Keys + b.entries.Keys
    ensures forall k :: k in a.entries && k !in b.entries ==> target[k] == a.entries[k]
    ensures forall k :: k in b.entries ==>
      target[k] == if k in a.entries && a.entries[k].Dict? && b.entries[k].Dict?
                   then Overlay(a.entries[k], b.entries[k]) else b.entries[k]
  {
    target := Overlay(a, b).entries;
  }

  /** The looped, recursive `merge`: copy the lower dict, then write every key of the upper one. */
  method Merge(a: Tree, b: Tree) returns (out: Tree)
    requires a.Dict? && b.Dict?
    ensures out == Overlay(a, b)
    decreases b
  {
    ghost var target := OverlayEntries(a, b);
    var result := a.entries;
    var todo := b.entries.Keys;
    while todo != {}
      invariant todo <= b.entries.Keys
      invariant result.Keys == a.entries.Keys + (b.entries.Keys - todo)
      invariant forall k :: k in result && k !in todo ==> result[k] == target[k]
      decreases todo
    {
      var k :| k in todo;
      var v := b.entries[k];
      if v.Dict? && k in a.entries && a.entries[k].Dict? {
        v := Merge(a.entries[k], v);
      }
      result := result[k := v];
      todo := todo - {k};
    }
    assert result == target;
    out := Dict(result);
  }

  // ---------------------------------------------------------------------------------------------
  // Reading a merged tree at a path
  // ---------------------------------------------------------------------------------------------

  function Lookup(t: Tree, p: Path): Option<Tree>
    decreases p
  {
    if p == [] then Some(t)
    else if t.Dict? && p[0] in t.entries then Lookup(t.entries[p[0]], p[1..])
    else None
  }

  /** Where walking `p` in a layer ends: at a value, at a key the layer does not have, or at a
      value that is not a dict although path is left. */
  datatype Reach = Found(value: Tree) | Missing | Blocked

  function Walk(t: Tree, p: Path): Reach
    decreases p
  {
    if p == [] then Found(t)
    else if !t.Dict? then Blocked
    else if p[0] !in t.entries then Missing
    else Walk(t.entries[p[0]], p[1..])
  }

  /** What any path of the merged tree reads as, from the two layers alone: a path the overlay does
      not mention keeps the base value, a path it cuts off disappears, a path it sets reads as the
      overlay's value laid over whatever the base had there. */
  lemma {:induction false} MergedLookup(a: Tree, b: Tree, p: Path)
    ensures Lookup(Overlay(a, b), p) ==
            match Walk(b, p) {
              case Missing => Lookup(a, p)
              case Blocked => None
              case Found(t) => Some(match Lookup(a, p) case Some(u) => Overlay(u, t) case None => t)
            }
    decreases p
  {
    if p != [] && b.Dict? && p[0] in b.entries {
      if a.Dict? {
        if p[0] in a.entries {
          MergedLookup(a.entries[p[0]], b.entries[p[0]], p[1..]);
        } else {
          WalkIsLookup(b.entries[p[0]], p[1..]);
        }
      } else {
        WalkIsLookup(b, p);
      }
    }
  }

  lemma {:induction false} WalkIsLookup(t: Tree, p: Path)
    ensures Lookup(t, p) == match Walk(t, p) case Found(u) => Some(u) case _ => None
    decreases p
  {
    if p != [] && t.Dict? && p[0] in t.entries {
      WalkIsLookup(t.entries[p[0]], p[1..]);
    }
  }

  /** Every leaf the overlay sets wins over any base. */
  lemma OverlayLeafWins(a: Tree, b: Tree, p: Path)
    requires Lookup(b, p).Some? && !Lookup(b, p).value.Dict?
    ensures Lookup(Overlay(a, b), p) == Lookup(b, p)
  {
    MergedLookup(a, b, p);
    WalkIsLookup(b, p);
  }

  // ---------------------------------------------------------------------------------------------
  // Algebra of layers
  // ---------------------------------------------------------------------------------------------

  lemma {:induction false} OverlayIdempotent(a: Tree, b: Tree)
    ensures Overlay(Overlay(a, b), b) == Overlay(a, b)
    decreases b
  {
    SelfOverlay(b);
    if a.Dict? && b.Dict? {
      forall k | k in b.entries
        ensures Overlay(Overlay(a, b).entries[k], b.entries[k]) == Overlay(a, b).entries[k]
      {
        if k in a.entries {
          OverlayIdempotent(a.entries[k], b.entries[k]);
        } else {
          SelfOverlay(b.entries[k]);
        }
      }
      assert Overlay(Overlay(a, b), b).entries == Overlay(a, b).entries;
    }
  }

  lemma {:induction false} SelfOverlay(t: Tree)
    ensures Overlay(t, t) == t
    decreases t
  {
    if t.Dict? {
      forall k | k in t.entries
        ensures Overlay(t.entries[k], t.entries[k]) == t.entries[k]
      {
        SelfOverlay(t.entries[k]);
      }
      assert Overlay(t, t).entries == t.entries;
    }
  }

  /** `upper` leaves nothing of `lower` visible: wherever both are dicts, every key is overridden. */
  predicate Covers(upper: Tree, lower: Tree)
    decreases lower
  {
    upper.Dict? && lower.Dict? ==>
      forall k :: k in lower.entries ==>
        k in upper.entries && Covers(upper.entries[k], lower.entries[k])
  }

  lemma {:induction false} CoversIffAbsorbs(upper: Tree, lower: Tree)
    ensures Covers(upper, lower) <==> Overlay(lower, upper) == upper
    decreases lower
  {
    if upper.Dict? && lower.Dict? {
      forall k | k in lower.entries && k in upper.entries
        ensures Covers(upper.entries[k], lower.entries[k])
                <==> Overlay(lower.entries[k], upper.entries[k]) == upper.entries[k]
      {
        CoversIffAbsorbs(upper.entries[k], lower.entries[k]);
      }
      var both := Overlay(lower, upper).entries;
      if Covers(upper, lower) {
        assert both == upper.entries;
      } else {
        var k :| k in lower.entries
                 && !(k in upper.entries && Covers(upper.entries[k], lower.entries[k]));
        assert k in both;
      }
    }
  }

  /** Three layers may be merged in either order: wherever the middle layer puts a non-dict between
      two dicts, the top dict must cover the bottom one. */
  predicate Associates(a: Tree, b: Tree, c: Tree)
    decreases b
  {
    a.Dict? && c.Dict? ==>
      if b.Dict? then
        forall k :: k in a.entries && k in b.entries && k in c.entries ==>
          Associates(a.entries[k], b.entries[k], c.entries[k])
      else Covers(c, a)
  }

  lemma {:induction false} OverlayAssociativeExactlyWhen(a: Tree, b: Tree, c: Tree)
    ensures Overlay(Overlay(a, b), c) == Overlay(a, Overlay(b, c)) <==> Associates(a, b, c)
    decreases b
  {
    if a.Dict? && c.Dict? && b.Dict? {
      var left, right := Overlay(Overlay(a, b), c).entries, Overlay(a, Overlay(b, c)).entries;
      assert left.Keys == right.Keys;
      forall k | k in left
        ensures left[k] == right[k] <==>
                (k in a.entries && k in b.entries && k in c.entries ==>
                  Associates(a.entries[k], b.entries[k], c.entries[k]))
      {
        if k in a.entries && k in b.entries && k in c.entries {
          OverlayAssociativeExactlyWhen(a.entries[k], b.entries[k], c.entries[k]);
        }
      }
      if Associates(a, b, c) {
        assert left == right;
      } else {
        var k :| k in a.entries && k in b.entries && k in c.entries
                 && !Associates(a.entries[k], b.entries[k], c.entries[k]);
        assert left[k] != right[k];
      }
    } else if a.Dict? && c.Dict? {
      CoversIffAbsorbs(c, a);
    }
  }

  /** In terms of paths: with no path that is a dict in both outer layers and something else in the
      middle one, the order of merging does not matter. */
  lemma {:induction false} NoSandwichAssociates(a: Tree, b: Tree, c: Tree)
    requires forall p: Path :: !Sandwich(a, b, c, p)
    ensures Associates(a, b, c)
    decreases b
  {
    assert !Sandwich(a, b, c, []);
    if a.Dict? && b.Dict? && c.Dict? {
      forall k | k in a.entries && k in b.entries && k in c.entries
        ensures Associates(a.entries[k], b.entries[k], c.entries[k])
      {
        forall p: Path ensures !Sandwich(a.entries[k], b.entries[k], c.entries[k], p) {
          assert ([k] + p)[1..] == p;
          assert !Sandwich(a, b, c, [k] + p);
        }
        NoSandwichAssociates(a.entries[k], b.entries[k], c.entries[k]);
      }
    }
  }

  predicate Sandwich(a: Tree, b: Tree, c: Tree, p: Path) {
    match (Lookup(a, p), Lookup(b, p), Lookup(c, p))
    case (Some(x), Some(y), Some(z)) => x.Dict? && !y.Dict? && z.Dict?
    case _ => false
  }

  // ---------------------------------------------------------------------------------------------
  // The fail-closed production checks
  // ---------------------------------------------------------------------------------------------

  datatype Test = IsFalse | IsFalsy | NotGeneratedPvc
  datatype Guard = Guard(path: Path, test: Test)

  predicate Truthy(t: Tree) {
    match t
    case Null => false
    case Bool(flag) => flag
    case Num(number) => number != 0.0
    case Str(text) => text != ""
    case List(items) => items != []
    case Dict(entries) => entries != map[]
  }

  predicate Meets(t: Tree, test: Test) {
    match test
    case IsFalse => t == Bool(false)
    case IsFalsy => !Truthy(t)
    case NotGeneratedPvc => t != Str("generatedPVC")
  }

  const REAL_DEPLOY: Path := ["global", "realDeployEnabled"]
  const OPERATOR_ACTIONS: Path := ["platform", "adminConsole", "operatorActionsEnabled"]
  const BACKUP_SCHEDULE: Path := ["platform", "integrations", "productionBackupSchedule"]
  const POSTGRES: Path := ["components", "postgres", "enabled"]
  const REDIS: Path := ["components", "redis", "enabled"]
  const EGRESS: Path := ["networkPolicy", "externalEgress", "enabled"]
  const MIGRATION_JOB: Path := ["batchJobs", "migration", "renderTemplate"]
  const BACKUP_JOB: Path := ["batchJobs", "backup", "renderTemplate"]
  const RESTORE_JOB: Path := ["batchJobs", "restore", "renderTemplate"]
  const POSTGRES_STORAGE: Path := ["storage", "postgres", "strategy"]
  const REDIS_STORAGE: Path := ["storage", "redis", "strategy"]

  /** One entry of a table: guards joined by `and`, evaluated left to right up to the first that is
      not met. (A check that fails on `A or B` is met by `not A and not B`.) */
  type Entry = seq<Guard>

  const FIRST_CHECKS: seq<Entry> := [
    [Guard(REAL_DEPLOY, IsFalse)], [Guard(OPERATOR_ACTIONS, IsFalse)], [Guard(BACKUP_SCHEDULE, IsFalse)],
    [Guard(POSTGRES, IsFalse)], [Guard(REDIS, IsFalse)]
  ]

  const LAST_CHECKS: seq<Entry> := [
    [Guard(EGRESS, IsFalse)],
    [Guard(MIGRATION_JOB, IsFalse)], [Guard(BACKUP_JOB, IsFalse)], [Guard(RESTORE_JOB, IsFalse)],
    [Guard(POSTGRES_STORAGE, NotGeneratedPvc), Guard(REDIS_STORAGE, NotGeneratedPvc)]
  ]

  /** The `checks` table of the production isolation verifier. */
  const ISOLATION_CHECKS: seq<Entry> := FIRST_CHECKS + LAST_CHECKS

  /** The production checks of the environment mapping verifier. */
  const MAPPING_CHECKS: seq<Entry> := [
    [Guard(REAL_DEPLOY, IsFalse)], [Guard(OPERATOR_ACTIONS, IsFalse)],
    [Guard(POSTGRES, IsFalsy), Guard(REDIS, IsFalsy)], [Guard(EGRESS, IsFalse)],
    [Guard(MIGRATION_JOB, IsFalsy), Guard(BACKUP_JOB, IsFalsy), Guard(RESTORE_JOB, IsFalsy)]
  ]

  predicate Holds(t: Tree, g: Guard) {
    Lookup(t, g.path).Some? && Meets(Lookup(t, g.path).value, g.test)
  }

  predicate EntryHolds(t: Tree, e: Entry) { forall g :: g in e ==> Holds(t, g) }

  /** A missing key or a non-dict on the way raises, but only when evaluation gets there: every guard
      before it is met. */
  predicate Raises(t: Tree, e: Entry) {
    exists i :: 0 <= i < |e| && Lookup(t, e[i].path).None? && forall j :: 0 <= j < i ==> Holds(t, e[j])
  }

  predicate Guarded(table: seq<Entry>, g: Guard) { exists e :: e in table && g in e }

  predicate Passes(t: Tree, table: seq<Entry>) { forall e :: e in table ==> EntryHolds(t, e) }

  datatype Verdict = Good | Failed | Raised

  /** One entry: stops at the first guard that is not met or cannot be read. */
  method RunEntry(t: Tree, e: Entry) returns (verdict: Verdict)
    ensures verdict == Good <==> EntryHolds(t, e)
    ensures verdict == Raised <==> Raises(t, e)
  {
    for i := 0 to |e|
      invariant forall j :: 0 <= j < i ==> Holds(t, e[j])
    {
      var found := Lookup(t, e[i].path);
      if found.None? {
        assert !Holds(t, e[i]) && e[i] in e;
        return Raised;
      }
      if !Meets(found.value, e[i].test) {
        assert !Holds(t, e[i]) && e[i] in e;
        return Failed;
      }
    }
    verdict := Good;
  }

  /** The whole table in order: `None` when some entry raises, else the entries that fail. */
  method RunChecks(t: Tree, table: seq<Entry>) returns (failures: Option<seq<Entry>>)
    ensures failures == Some([]) <==> Passes(t, table)
    ensures failures.None? <==> exists e :: e in table && Raises(t, e)
    ensures failures.Some? ==> forall e :: e in failures.value <==> e in table && !EntryHolds(t, e)
  {
    var bad := [];
    for i := 0 to |table|
      invariant forall e :: e in bad <==> e in table[..i] && !EntryHolds(t, e)
      invariant forall e :: e in table[..i] ==> !Raises(t, e)
    {
      var verdict := RunEntry(t, table[i]);
      assert table[..i + 1] == table[..i] + [table[i]] && table[i] in table;
      if verdict == Raised {
        RaisingFails(t, table[i]);
        return None;
      }
      if verdict == Failed {
        bad := bad + [table[i]];
      }
    }
    assert table[..|table|] == table;
    assert bad != [] ==> bad[0] in bad;
    failures := Some(bad);
  }

  lemma RaisingFails(t: Tree, e: Entry)
    requires Raises(t, e)
    ensures !EntryHolds(t, e)
  {
    var i :| 0 <= i < |e| && Lookup(t, e[i].path).None? && forall j :: 0 <= j < i ==> Holds(t, e[j]);
    assert e[i] in e && !Holds(t, e[i]);
  }

  /** A failing guard hides an unreadable path behind it, so the order within an entry matters. */
  lemma FailureHidesMissingPath(t: Tree, g: Guard, h: Guard)
    requires Lookup(t, g.path).Some? && !Holds(t, g) && Lookup(t, h.path).None?
    ensures !Raises(t, [g, h]) && !EntryHolds(t, [g, h]) && Raises(t, [h, g])
  {
    var e := [g, h];
    assert e[0] == g && g in e;
    assert [h, g][0] == h;
  }

  /** A guard the overlay decides once and for all: it holds of the overlay alone and no base can
      change the value read there in a way that matters. */
  predicate Pinned(over: Tree, g: Guard) {
    Holds(over, g) && (g.test.IsFalsy? ==> !Lookup(over, g.path).value.Dict?)
  }

  lemma PinnedHoldsOverEveryBase(base: Tree, over: Tree, g: Guard)
    requires base.Dict? && Pinned(over, g)
    ensures Holds(Overlay(base, over), g)
  {
    MergedLookup(base, over, g.path);
    WalkIsLookup(over, g.path);
  }

  /** A base that defeats an overlay whose guarded value is the empty dict. */
  function Spoiler(p: Path): Tree
    decreases p
  {
    Dict(if p == [] then map["on" := Bool(true)] else map[p[0] := Spoiler(p[1..])])
  }

  lemma {:induction false} SpoilerLookup(p: Path)
    ensures Lookup(Spoiler(p), p) == Some(Dict(map["on" := Bool(true)]))
    decreases p
  {
    if p != [] { SpoilerLookup(p[1..]); }
  }

  lemma SpoilerDefeats(over: Tree, g: Guard)
    requires g.test.IsFalsy? && Lookup(over, g.path).Some? && Lookup(over, g.path).value.Dict?
    ensures !Holds(Overlay(Spoiler(g.path), over), g)
  {
    SpoilerLookup(g.path);
    MergedLookup(Spoiler(g.path), over, g.path);
    WalkIsLookup(over, g.path);
    assert "on" in Lookup(Overlay(Spoiler(g.path), over), g.path).value.entries;
  }

  /** A guard that holds over the empty base and over the spoiler is pinned. */
  lemma HoldsOverEveryBaseIsPinned(over: Tree, g: Guard)
    requires over.Dict?
    requires Holds(Overlay(Dict(map[]), over), g)
    requires Holds(Overlay(Spoiler(g.path), over), g)
    ensures Pinned(over, g)
  {
    assert Overlay(Dict(map[]), over).entries == over.entries;
    if g.test.IsFalsy? && Lookup(over, g.path).value.Dict? {
      SpoilerDefeats(over, g);
    }
  }

  lemma PassingMeets(t: Tree, table: seq<Entry>, g: Guard)
    requires Passes(t, table) && Guarded(table, g)
    ensures Holds(t, g)
  {
    var e :| e in table && g in e;
    assert EntryHolds(t, e);
  }

  /** The checks pass whatever the base values are exactly when every guard is pinned by the
      overlay. Without a truthiness test (the isolation table) that is: exactly when the overlay
      standing alone passes. */
  lemma FailClosedExactlyWhen(over: Tree, table: seq<Entry>)
    requires over.Dict?
    ensures (forall base: Tree :: base.Dict? ==> Passes(Overlay(base, over), table))
            <==> forall g :: Guarded(table, g) ==> Pinned(over, g)
  {
    if forall g :: Guarded(table, g) ==> Pinned(over, g) {
      forall base: Tree | base.Dict? ensures Passes(Overlay(base, over), table) {
        AllPinnedPass(base, over, table);
      }
    } else {
      var g :| Guarded(table, g) && !Pinned(over, g);
      if forall base: Tree :: base.Dict? ==> Passes(Overlay(base, over), table) {
        PassingMeets(Overlay(Dict(map[]), over), table, g);
        PassingMeets(Overlay(Spoiler(g.path), over), table, g);
        HoldsOverEveryBaseIsPinned(over, g);
      }
    }
  }

  lemma AllPinnedPass(base: Tree, over: Tree, table: seq<Entry>)
    requires base.Dict? && forall g :: Guarded(table, g) ==> Pinned(over, g)
    ensures Passes(Overlay(base, over), table)
  {
    forall e, g | e in table && g in e ensures Holds(Overlay(base, over), g) {
      assert Guarded(table, g);
      PinnedHoldsOverEveryBase(base, over, g);
    }
  }

  /** The isolation verifier accepts an overlay over every base iff it accepts the overlay alone. */
  lemma IsolationFailClosed(over: Tree)
    requires over.Dict?
    ensures (forall base: Tree :: base.Dict? ==> Passes(Overlay(base, over), ISOLATION_CHECKS))
            <==> Passes(over, ISOLATION_CHECKS)
  {
    FailClosedExactlyWhen(over, ISOLATION_CHECKS);
    forall g | Guarded(ISOLATION_CHECKS, g) ensures !g.test.IsFalsy? { IsolationTests(g); }
    if Passes(over, ISOLATION_CHECKS) {
      forall g | Guarded(ISOLATION_CHECKS, g) ensures Pinned(over, g) { PassingMeets(over, ISOLATION_CHECKS, g); }
    } else {
      PassingIsHolding(over, ISOLATION_CHECKS);
    }
  }

  lemma PassingIsHolding(t: Tree, table: seq<Entry>)
    ensures Passes(t, table) <==> forall g :: Guarded(table, g) ==> Holds(t, g)
  {
    if Passes(t, table) {
      forall g | Guarded(table, g) ensures Holds(t, g) { PassingMeets(t, table, g); }
    } else {
      var e :| e in table && !EntryHolds(t, e);
      var g :| g in e && !Holds(t, g);
      assert Guarded(table, g);
    }
  }

  lemma IsolationTests(g: Guard)
    requires Guarded(ISOLATION_CHECKS, g)
    ensures !g.test.IsFalsy?
  {
  }

  /** What the mapping checks guard, the isolation table guards more strictly. */
  lemma MappingIsWeaker(g: Guard)
    requires Guarded(MAPPING_CHECKS, g)
    ensures Guarded(ISOLATION_CHECKS, Guard(g.path, IsFalse)) && g.test != NotGeneratedPvc
  {
    var e :| e in MAPPING_CHECKS && g in e;
    assert [Guard(g.path, IsFalse)] in ISOLATION_CHECKS;
    assert Guard(g.path, IsFalse) in [Guard(g.path, IsFalse)];
  }

  /** An overlay that passes the isolation table over every base also passes the mapping checks
      over every base. */
  lemma IsolationImpliesMapping(base: Tree, over: Tree)
    requires base.Dict? && over.Dict? && Passes(over, ISOLATION_CHECKS)
    ensures Passes(Overlay(base, over), MAPPING_CHECKS)
  {
    forall g | Guarded(MAPPING_CHECKS, g) ensures Pinned(over, g) {
      MappingIsWeaker(g);
      PassingMeets(over, ISOLATION_CHECKS, Guard(g.path, IsFalse));
    }
    AllPinnedPass(base, over, MAPPING_CHECKS);
  }

  // ---------------------------------------------------------------------------------------------
  // The tables, written out
  // ---------------------------------------------------------------------------------------------

  predicate Off(t: Tree, p: Path) { Lookup(t, p) == Some(Bool(false)) }

  /** The path reads as something other than the one text. */
  predicate OtherThan(t: Tree, p: Path, text: string) { Lookup(t, p).Some? && Lookup(t, p) != Some(Str(text)) }

  /** The path reads as null, false, zero, or an empty text, list or dict. */
  predicate Falsy(t: Tree, p: Path) {
    Lookup(t, p) in {Some(Null), Some(Bool(false)), Some(Num(0.0)), Some(Str("")), Some(List([])), Some(Dict(map[]))}
  }

  lemma FalsyIs(t: Tree, p: Path)
    ensures Falsy(t, p) <==> Holds(t, Guard(p, IsFalsy))
  {
  }

  lemma OneGuard(t: Tree, g: Guard)
    ensures EntryHolds(t, [g]) <==> Holds(t, g)
  {
    assert g in [g];
  }

  lemma TwoGuards(t: Tree, g: Guard, h: Guard)
    ensures EntryHolds(t, [g, h]) <==> Holds(t, g) && Holds(t, h)
  {
    assert g in [g, h] && h in [g, h];
  }

  lemma ThreeGuards(t: Tree, g: Guard, h: Guard, i: Guard)
    ensures EntryHolds(t, [g, h, i]) <==> Holds(t, g) && Holds(t, h) && Holds(t, i)
  {
    assert g in [g, h, i] && h in [g, h, i] && i in [g, h, i];
  }

  /** What a tree that passes the isolation table reads at every guarded path. */
  predicate Isolated(t: Tree) {
    Off(t, ["global", "realDeployEnabled"]) && Off(t, ["platform", "adminConsole", "operatorActionsEnabled"])
    && Off(t, ["platform", "integrations", "productionBackupSchedule"])
    && Off(t, ["components", "postgres", "enabled"]) && Off(t, ["components", "redis", "enabled"])
    && Off(t, ["networkPolicy", "externalEgress", "enabled"])
    && Off(t, ["batchJobs", "migration", "renderTemplate"]) && Off(t, ["batchJobs", "backup", "renderTemplate"])
    && Off(t, ["batchJobs", "restore", "renderTemplate"])
    && OtherThan(t, ["storage", "postgres", "strategy"], "generatedPVC")
    && OtherThan(t, ["storage", "redis", "strategy"], "generatedPVC")
  }

  lemma FiveEntries(t: Tree, a: Entry, b: Entry, c: Entry, d: Entry, e: Entry)
    ensures Passes(t, [a, b, c, d, e]) <==>
            EntryHolds(t, a) && EntryHolds(t, b) && EntryHolds(t, c) && EntryHolds(t, d) && EntryHolds(t, e)
  {
    var table := [a, b, c, d, e];
    assert a in table && b in table && c in table && d in table && e in table;
  }

  lemma PassesBoth(t: Tree, a: seq<Entry>, b: seq<Entry>)
    ensures Passes(t, a + b) <==> Passes(t, a) && Passes(t, b)
  {
    assert forall e :: e in a + b <==> e in a || e in b;
  }

  lemma OffIs(t: Tree, p: Path)
    ensures EntryHolds(t, [Guard(p, IsFalse)]) <==> Off(t, p)
  {
    OneGuard(t, Guard(p, IsFalse));
  }

  lemma StorageIs(t: Tree, p: Path, q: Path)
    ensures EntryHolds(t, [Guard(p, NotGeneratedPvc), Guard(q, NotGeneratedPvc)]) <==>
            OtherThan(t, p, "generatedPVC") && OtherThan(t, q, "generatedPVC")
  {
    TwoGuards(t, Guard(p, NotGeneratedPvc), Guard(q, NotGeneratedPvc));
  }

  lemma FiveOff(t: Tree, a: Path, b: Path, c: Path, d: Path, e: Path)
    ensures Passes(t, [[Guard(a, IsFalse)], [Guard(b, IsFalse)], [Guard(c, IsFalse)], [Guard(d, IsFalse)],
                       [Guard(e, IsFalse)]])
            <==> Off(t, a) && Off(t, b) && Off(t, c) && Off(t, d) && Off(t, e)
  {
    FiveEntries(t, [Guard(a, IsFalse)], [Guard(b, IsFalse)], [Guard(c, IsFalse)], [Guard(d, IsFalse)],
                [Guard(e, IsFalse)]);
    OffIs(t, a);
    OffIs(t, b);
    OffIs(t, c);
    OffIs(t, d);
    OffIs(t, e);
  }

  lemma FourOffAndStorage(t: Tree, a: Path, b: Path, c: Path, d: Path, p: Path, q: Path)
    ensures Passes(t, [[Guard(a, IsFalse)], [Guard(b, IsFalse)], [Guard(c, IsFalse)], [Guard(d, IsFalse)],
                       [Guard(p, NotGeneratedPvc), Guard(q, NotGeneratedPvc)]])
            <==> Off(t, a) && Off(t, b) && Off(t, c) && Off(t, d)
                 && OtherThan(t, p, "generatedPVC") && OtherThan(t, q, "generatedPVC")
  {
    FiveEntries(t, [Guard(a, IsFalse)], [Guard(b, IsFalse)], [Guard(c, IsFalse)], [Guard(d, IsFalse)],
                [Guard(p, NotGeneratedPvc), Guard(q, NotGeneratedPvc)]);
    OffIs(t, a);
    OffIs(t, b);
    OffIs(t, c);
    OffIs(t, d);
    StorageIs(t, p, q);
  }

  lemma IsolationWrittenOut(t: Tree)
    ensures Passes(t, ISOLATION_CHECKS) <==> Isolated(t)
  {
    FiveOff(t, REAL_DEPLOY, OPERATOR_ACTIONS, BACKUP_SCHEDULE, POSTGRES, REDIS);
    FourOffAndStorage(t, EGRESS, MIGRATION_JOB, BACKUP_JOB, RESTORE_JOB, POSTGRES_STORAGE, REDIS_STORAGE);
    PassesBoth(t, FIRST_CHECKS, LAST_CHECKS);
  }

  /** What a tree that passes the mapping checks reads at every guarded path. */
  predicate Mapped(t: Tree) {
    Off(t, ["global", "realDeployEnabled"]) && Off(t, ["platform", "adminConsole", "operatorActionsEnabled"])
    && Falsy(t, ["components", "postgres", "enabled"]) && Falsy(t, ["components", "redis", "enabled"])
    && Off(t, ["networkPolicy", "externalEgress", "enabled"])
    && Falsy(t, ["batchJobs", "migration", "renderTemplate"]) && Falsy(t, ["batchJobs", "backup", "renderTemplate"])
    && Falsy(t, ["batchJobs", "restore", "renderTemplate"])
  }

  lemma FalsyAre(t: Tree, a: Path, b: Path, c: Path)
    ensures EntryHolds(t, [Guard(a, IsFalsy), Guard(b, IsFalsy)]) <==> Falsy(t, a) && Falsy(t, b)
    ensures EntryHolds(t, [Guard(a, IsFalsy), Guard(b, IsFalsy), Guard(c, IsFalsy)]) <==>
            Falsy(t, a) && Falsy(t, b) && Falsy(t, c)
  {
    TwoGuards(t, Guard(a, IsFalsy), Guard(b, IsFalsy));
    ThreeGuards(t, Guard(a, IsFalsy), Guard(b, IsFalsy), Guard(c, IsFalsy));
    FalsyIs(t, a);
    FalsyIs(t, b);
    FalsyIs(t, c);
  }

  lemma MappingOf(t: Tree, a: Path, b: Path, p: Path, q: Path, d: Path, x: Path, y: Path, z: Path)
    ensures Passes(t, [[Guard(a, IsFalse)], [Guard(b, IsFalse)], [Guard(p, IsFalsy), Guard(q, IsFalsy)],
                       [Guard(d, IsFalse)], [Guard(x, IsFalsy), Guard(y, IsFalsy), Guard(z, IsFalsy)]])
            <==> Off(t, a) && Off(t, b) && Falsy(t, p) && Falsy(t, q) && Off(t, d)
                 && Falsy(t, x) && Falsy(t, y) && Falsy(t, z)
  {
    FiveEntries(t, [Guard(a, IsFalse)], [Guard(b, IsFalse)], [Guard(p, IsFalsy), Guard(q, IsFalsy)],
                [Guard(d, IsFalse)], [Guard(x, IsFalsy), Guard(y, IsFalsy), Guard(z, IsFalsy)]);
    OffIs(t, a);
    OffIs(t, b);
    OffIs(t, d);
    FalsyAre(t, p, q, q);
    FalsyAre(t, x, y, z);
  }

  lemma MappingWrittenOut(t: Tree)
    ensures Passes(t, MAPPING_CHECKS) <==> Mapped(t)
  {
    MappingOf(t, REAL_DEPLOY, OPERATOR_ACTIONS, POSTGRES, REDIS, EGRESS, MIGRATION_JOB, BACKUP_JOB, RESTORE_JOB);
  }
}
