/** Runs of any length over any number of memory maps. */
module MapRuns {
  import opened Options
  import opened Entry
  import opened PageTable
  import opened TableReach
  import opened TableLoss
  import opened MemoryMaps
  import opened Sequences
  import opened WalkWords

  datatype Op =
    | Create
    | MapPage(which: nat, v: nat, level: Level, p: nat, flags: seq<Flag>)
    | Destroy(which: nat)

  /** What the callers of `map` promise. */
  predicate Sane(op: Op) {
    op.MapPage? ==>
      && (IsMiddle(op.level) || op.level.PT?) && !Links(op.level, op.flags)
      && Narrow(op.p) && op.p % Align(Page(op.level, op.p)) == 0
  }

  /** The state of a run: the words and tables, the memory maps, and the frames that the allocator can return. */
  datatype State = State(words: Memory, tables: Tables, own: Owners, maps: seq<nat>, pool: seq<nat>)

  function Elements(s: seq<nat>): set<nat> {
    set x | x in s
  }

  /** The tables are in order, the maps are different and the first is the static one, and pool frames are no tables. */
  ghost predicate InOrder(s: State) {
    && Inv(s.tables, s.own, Elements(s.maps)) && |s.maps| > 0
    && (forall j, k | 0 <= j < k < |s.maps| :: s.maps[j] != s.maps[k])
    && s.own.Keys !! Elements(s.pool)
  }

  ghost function LostIn(s: State): set<nat>
    requires InOrder(s)
  {
    Lost(s.tables, s.own, Elements(s.maps))
  }

  /** The frames that are tables in reach of a map or that the allocator can return. */
  ghost function Usable(s: State): set<nat>
    requires InOrder(s)
  {
    (s.own.Keys - LostIn(s)) + Elements(s.pool)
  }

  /** The frames that are tables or that the allocator can return. */
  function Stock(s: State): set<nat> {
    s.own.Keys + Elements(s.pool)
  }

  /** The tables that an operation writes over. */
  ghost function Loss(s: State, op: Op): set<nat>
    requires InOrder(s) && Sane(op)
  {
    if op.MapPage? && op.which < |s.maps| && FinalEntry(op.level, op.flags, op.p).Some?
    then Hit(s.tables, s.own, s.maps[op.which], op.v, op.level) else {}
  }

  /** What an operation does to the frames. */
  ghost predicate Accounts(s: State, op: Op, s': State) {
    && InOrder(s) && InOrder(s') && Sane(op)
    && Loss(s, op) <= Usable(s) && Usable(s') == Usable(s) - Loss(s, op)
    && LostIn(s') <= LostIn(s) + Loss(s, op)
  }

  /**
   * What an operation does to the translations of all maps. A page is mapped exactly if the allocator has the frames
   * for the tables that are missing on its walk.
   */
  ghost predicate Translates(s: State, op: Op, s': State)
    requires InOrder(s) && InOrder(s') && Sane(op)
  {
    match op
    case Create =>
      if s.pool == [] then s' == s
      else
        && s'.maps == s.maps + [s.pool[0]] && s'.pool == s.pool[1..]
        && NewMap(s, s', s.pool[0]) && CopiedWords(s.words, s'.words, s.maps[0], s.pool[0])
    case MapPage(which, v, level, p, flags) =>
      && s'.maps == s.maps
      && if which < |s.maps| then
           MapOrStop(s, s', s.maps[which], v, level, FinalEntry(level, flags, p)) && Writes(s, s', op)
         else s' == s
    case Destroy(which) =>
      && s'.maps == (if 0 < which < |s.maps| then s.maps[..which] + s.maps[which + 1..] else s.maps)
      && Unchanged(s, s') && KeptWords(s, s')
  }

  /** The words that `map` writes. */
  ghost predicate Writes(s: State, s': State, op: Op)
    requires InOrder(s) && Sane(op) && op.MapPage? && op.which < |s.maps|
  {
    var root := s.maps[op.which];
    assert root in Elements(s.maps);
    if Missing(s.tables, s.own, root, op.level, op.v) <= |s.pool|
    then MappedWords(s.words, s'.words, root, op.v, op.level, op.p, op.flags)
    else StoppedWords(s.words, s'.words, root, op.v, op.level)
  }

  /** No word differs but those of frames that the allocator has got back. */
  ghost predicate KeptWords(s: State, s': State) {
    s'.words.Keys == s.words.Keys && forall g | g in s.words && g !in s'.pool :: s'.words[g] == s.words[g]
  }

  ghost predicate NewMap(s: State, s': State, a: nat)
    requires InOrder(s) && InOrder(s') && s'.maps == s.maps + [a]
  {
    forall r, x: nat | r in s'.maps ::
      Trans(s'.tables, s'.own, r, x) ==
      if r in s.maps then Trans(s.tables, s.own, r, x)
      else if IsKernel(x) then Trans(s.tables, s.own, s.maps[0], x) else None
  }

  ghost predicate Unchanged(s: State, s': State)
    requires InOrder(s) && InOrder(s')
  {
    forall r, x: nat | r in s'.maps && r in s.maps :: Trans(s'.tables, s'.own, r, x) == Trans(s.tables, s.own, r, x)
  }

  /** A page was mapped: a kernel page is seen through every map, a user page through no other map. */
  ghost predicate PageMapped(s: State, s': State, root: nat, v: nat, level: Level, final: Option<Target>)
    requires InOrder(s) && InOrder(s') && s'.maps == s.maps && root in s.maps
  {
    && (forall r, x: nat | r in s.maps ::
          Trans(s'.tables, s'.own, r, x) == Expected(s.tables, s.own, root, v, level, final, r, x))
    && (final.Some? && IsKernel(v) ==>
          forall r, x: nat | r in s.maps && Slot(level, x) == Slot(level, v) ::
            Trans(s'.tables, s'.own, r, x) == Answer(final.value))
    && (!IsKernel(v) ==>
          forall r, x: nat | r in s.maps && r != root :: Trans(s'.tables, s'.own, r, x) == Trans(s.tables, s.own, r, x))
  }

  /** The page was mapped, with a frame for each missing table, or all frames were used up before. */
  ghost predicate MapOrStop(s: State, s': State, root: nat, v: nat, level: Level, final: Option<Target>)
    requires InOrder(s) && InOrder(s') && s'.maps == s.maps && root in s.maps && !level.CR3?
  {
    assert root in Elements(s.maps);
    var missing := Missing(s.tables, s.own, root, level, v);
    if missing <= |s.pool| then s'.pool == s.pool[missing..] && PageMapped(s, s', root, v, level, final)
    else s'.pool == [] && Stopped(s.tables, s.own, s'.tables, s'.own, Elements(s.maps), root, v, level, s.pool != [])
  }

  lemma PageSeen(s: State, s': State, root: nat, v: nat, level: Level, final: Option<Target>)
    requires InOrder(s) && InOrder(s') && s'.maps == s.maps && root in s.maps && !level.CR3?
    requires forall r, x: nat | r in s.maps ::
               Trans(s'.tables, s'.own, r, x) == Expected(s.tables, s.own, root, v, level, final, r, x)
    ensures PageMapped(s, s', root, v, level, final)
  {
    forall r, x: nat | r in s.maps
      ensures final.Some? && IsKernel(v) && Slot(level, x) == Slot(level, v) ==>
                Trans(s'.tables, s'.own, r, x) == Answer(final.value)
      ensures !IsKernel(v) && r != root ==> Trans(s'.tables, s'.own, r, x) == Trans(s.tables, s.own, r, x)
    {
      assert Trans(s'.tables, s'.own, r, x) == Expected(s.tables, s.own, root, v, level, final, r, x);
      if final.Some? && IsKernel(v) && Slot(level, x) == Slot(level, v) {
        KernelMapSeen(s.tables, s.own, Elements(s.maps), root, v, level, final.value, r, x);
      }
      if !IsKernel(v) && r != root {
        UserMapPrivate(s.tables, s.own, Elements(s.maps), root, v, level, final, r, x);
      }
    }
  }

  // ---------------------------------------------------------------- one operation

  /** The manager and the allocator are in this state. */
  ghost predicate At(mm: MemoryManager, s: State)
    reads mm
  {
    && mm.Valid() && mm.words == s.words && mm.tables == s.tables && mm.own == s.own
    && mm.roots == Elements(s.maps) && mm.PoolReady(s.pool, 0) && InOrder(s)
  }

  lemma PoolApart(mm: MemoryManager, pool: seq<nat>)
    requires mm.PoolReady(pool, 0)
    ensures mm.own.Keys !! Elements(pool)
  {
    forall x | x in Elements(pool)
      ensures x !in mm.own
    {
      var k :| 0 <= k < |pool| && pool[k] == x;
      assert Allocated(mm.words, mm.own, pool[k]);
    }
  }

  method Step(mm: MemoryManager, maps: seq<nat>, op: Op, pool: seq<nat>) returns (maps': seq<nat>, pool': seq<nat>)
    requires At(mm, State(mm.words, mm.tables, mm.own, maps, pool)) && Sane(op)
    modifies mm
    ensures At(mm, State(mm.words, mm.tables, mm.own, maps', pool')) && maps'[0] == maps[0]
    ensures Accounts(old(State(mm.words, mm.tables, mm.own, maps, pool)), op,
              State(mm.words, mm.tables, mm.own, maps', pool'))
    ensures Translates(old(State(mm.words, mm.tables, mm.own, maps, pool)), op,
              State(mm.words, mm.tables, mm.own, maps', pool'))
  {
    match op {
      case Create =>
        maps', pool' := Add(mm, maps, pool);
      case MapPage(which, v, level, p, flags) =>
        maps' := maps;
        pool' := Extend(mm, maps, which, v, level, p, flags, pool);
      case Destroy(which) =>
        maps', pool' := Remove(mm, maps, which, pool);
    }
  }

  method Add(mm: MemoryManager, maps: seq<nat>, pool: seq<nat>) returns (maps': seq<nat>, pool': seq<nat>)
    requires At(mm, State(mm.words, mm.tables, mm.own, maps, pool))
    modifies mm
    ensures At(mm, State(mm.words, mm.tables, mm.own, maps', pool')) && maps'[0] == maps[0]
    ensures Accounts(old(State(mm.words, mm.tables, mm.own, maps, pool)), Create,
              State(mm.words, mm.tables, mm.own, maps', pool'))
    ensures Translates(old(State(mm.words, mm.tables, mm.own, maps, pool)), Create,
              State(mm.words, mm.tables, mm.own, maps', pool'))
  {
    maps', pool' := maps, pool;
    if 0 < |pool| {
      ghost var s := State(mm.words, mm.tables, mm.own, maps, pool);
      assert maps[0] in Elements(maps);
      var _ := mm.New(maps[0], pool[0]);
      maps', pool' := maps + [pool[0]], pool[1..];
      PoolApart(mm, pool');
      AddedMap(s, State(mm.words, mm.tables, mm.own, maps', pool'), pool[0]);
    }
  }

  /** A new map, as an update of the state. */
  ghost predicate Added(s: State, s': State, a: nat) {
    && InOrder(s) && |s.pool| > 0 && a == s.pool[0] && s'.maps == s.maps + [a] && s'.pool == s.pool[1..]
    && a !in s.maps && s'.own == s.own[a := Pos(User(a), PML4, 0)] && s'.own.Keys !! Elements(s'.pool)
    && s.maps[0] in Elements(s.maps) && Inv(s'.tables, s'.own, Elements(s.maps) + {a})
    && Lost(s'.tables, s'.own, Elements(s.maps) + {a}) == LostIn(s)
    && NewTranslations(s.tables, s.own, s'.tables, s'.own, Elements(s.maps), s.maps[0], a)
    && CopiedWords(s.words, s'.words, s.maps[0], a)
  }

  lemma AddedMap(s: State, s': State, a: nat)
    requires Added(s, s', a)
    ensures InOrder(s') && Elements(s'.maps) == Elements(s.maps) + {a}
    ensures Accounts(s, Create, s') && Translates(s, Create, s')
  {
    AddedInOrder(s, s', a);
    AddedAccounts(s, s', a);
    AddedTranslates(s, s', a);
  }

  lemma AddedInOrder(s: State, s': State, a: nat)
    requires Added(s, s', a)
    ensures InOrder(s') && Elements(s'.maps) == Elements(s.maps) + {a} && LostIn(s') == LostIn(s)
  {
    assert Elements(s'.maps) == Elements(s.maps) + {a};
  }

  lemma AddedAccounts(s: State, s': State, a: nat)
    requires Added(s, s', a) && InOrder(s') && LostIn(s') == LostIn(s)
    ensures Accounts(s, Create, s')
  {
    ElementsSplit(s.pool, 1);
    assert Elements(s.pool[..1]) == {a};
    AccountsTaken(s, Create, s', {a});
  }

  lemma AddedTranslates(s: State, s': State, a: nat)
    requires Added(s, s', a) && InOrder(s')
    ensures Translates(s, Create, s')
  {
    forall r, x: nat | r in s'.maps
      ensures Trans(s'.tables, s'.own, r, x) ==
              if r in s.maps then Trans(s.tables, s.own, r, x)
              else if IsKernel(x) then Trans(s.tables, s.own, s.maps[0], x) else None
    {
      assert r in Elements(s.maps) + {a};
    }
  }

  method Extend(mm: MemoryManager, maps: seq<nat>, which: nat, v: nat, level: Level, p: nat, flags: seq<Flag>,
                pool: seq<nat>)
    returns (pool': seq<nat>)
    requires At(mm, State(mm.words, mm.tables, mm.own, maps, pool)) && Sane(MapPage(which, v, level, p, flags))
    modifies mm
    ensures At(mm, State(mm.words, mm.tables, mm.own, maps, pool'))
    ensures Accounts(old(State(mm.words, mm.tables, mm.own, maps, pool)), MapPage(which, v, level, p, flags),
              State(mm.words, mm.tables, mm.own, maps, pool'))
    ensures Translates(old(State(mm.words, mm.tables, mm.own, maps, pool)), MapPage(which, v, level, p, flags),
              State(mm.words, mm.tables, mm.own, maps, pool'))
  {
    pool' := pool;
    if which < |maps| {
      pool' := ExtendOne(mm, maps, which, v, level, p, flags, pool);
    }
  }

  method ExtendOne(mm: MemoryManager, maps: seq<nat>, which: nat, v: nat, level: Level, p: nat, flags: seq<Flag>,
                   pool: seq<nat>)
    returns (pool': seq<nat>)
    requires At(mm, State(mm.words, mm.tables, mm.own, maps, pool)) && Sane(MapPage(which, v, level, p, flags)) &&
             which < |maps|
    modifies mm
    ensures At(mm, State(mm.words, mm.tables, mm.own, maps, pool'))
    ensures Accounts(old(State(mm.words, mm.tables, mm.own, maps, pool)), MapPage(which, v, level, p, flags),
              State(mm.words, mm.tables, mm.own, maps, pool'))
    ensures Translates(old(State(mm.words, mm.tables, mm.own, maps, pool)), MapPage(which, v, level, p, flags),
              State(mm.words, mm.tables, mm.own, maps, pool'))
  {
    ghost var s := State(mm.words, mm.tables, mm.own, maps, pool);
    ghost var used, ok;
    pool', used, ok := MapOne(mm, maps, which, v, level, p, flags, pool, s);
    MapStep(s, MapPage(which, v, level, p, flags), State(mm.words, mm.tables, mm.own, maps, pool'), used, ok);
  }

  method MapOne(mm: MemoryManager, maps: seq<nat>, which: nat, v: nat, level: Level, p: nat, flags: seq<Flag>,
                pool: seq<nat>, ghost s: State)
    returns (pool': seq<nat>, ghost used: nat, ghost ok: bool)
    requires At(mm, s) && s.maps == maps && s.pool == pool && which < |maps|
    requires Sane(MapPage(which, v, level, p, flags))
    modifies mm
    ensures mm.Valid() && mm.roots == Elements(maps) && mm.PoolReady(pool', 0)
    ensures Mapped(s, MapPage(which, v, level, p, flags), State(mm.words, mm.tables, mm.own, maps, pool'), used, ok)
  {
    assert maps[which] in Elements(maps);
    var ok', used' := mm.Map(maps[which], v, level, p, flags, pool, 0);
    pool', used, ok := pool[used'..], used', ok';
    PoolRest(mm, pool, used);
  }

  lemma PoolRest(mm: MemoryManager, pool: seq<nat>, used: nat)
    requires used <= |pool| && mm.PoolReady(pool, used)
    ensures mm.PoolReady(pool[used..], 0) && mm.own.Keys !! Elements(pool[used..])
  {
    PoolApart(mm, pool[used..]);
  }

  /** What `map` did, in terms of the states before and after. */
  ghost predicate Mapped(s: State, op: Op, s': State, used: nat, ok: bool)
    requires InOrder(s) && Sane(op)
  {
    && op.MapPage? && op.which < |s.maps| && s'.maps == s.maps
    && s.maps[op.which] in Elements(s.maps) && Inv(s'.tables, s'.own, Elements(s.maps))
    && used <= |s.pool| && s'.pool == s.pool[used..] && s'.own.Keys !! Elements(s'.pool)
    && Took(s.own.Keys, s'.own.Keys, s.pool, 0, used)
    && var root, final := s.maps[op.which], FinalEntry(op.level, op.flags, op.p);
    var missing := Missing(s.tables, s.own, root, op.level, op.v);
    && (ok <==> missing <= |s.pool|) && used == (if ok then missing else |s.pool|)
    && MapLoses(s.tables, s.own, s'.tables, s'.own, Elements(s.maps), root, op.v, op.level, ok && final.Some?)
    && (!ok ==>
          && !FindsTable(s.tables, s.own, root, op.v, op.level)
          && Stopped(s.tables, s.own, s'.tables, s'.own, Elements(s.maps), root, op.v, op.level, used > 0))
    && (ok ==>
          forall r, x: nat | r in Elements(s.maps) ::
            Trans(s'.tables, s'.own, r, x) == Expected(s.tables, s.own, root, op.v, op.level, final, r, x))
    && (if ok then MappedWords(s.words, s'.words, root, op.v, op.level, op.p, op.flags)
        else StoppedWords(s.words, s'.words, root, op.v, op.level))
  }

  lemma MapStep(s: State, op: Op, s': State, used: nat, ok: bool)
    requires InOrder(s) && Sane(op) && Mapped(s, op, s', used, ok)
    ensures InOrder(s') && Accounts(s, op, s') && Translates(s, op, s')
  {
    MapAccounts(s, op, s', used, ok);
    MapTranslates(s, s', s.maps[op.which], op.v, op.level, FinalEntry(op.level, op.flags, op.p), used, ok);
  }

  lemma MapTranslates(s: State, s': State, root: nat, v: nat, level: Level, final: Option<Target>, used: nat, ok: bool)
    requires InOrder(s) && InOrder(s') && s'.maps == s.maps && root in Elements(s.maps) && !level.CR3?
    requires used <= |s.pool| && s'.pool == s.pool[used..]
    requires var missing := Missing(s.tables, s.own, root, level, v);
             (ok <==> missing <= |s.pool|) && used == if ok then missing else |s.pool|
    requires ok ==>
               forall r, x: nat | r in Elements(s.maps) ::
                 Trans(s'.tables, s'.own, r, x) == Expected(s.tables, s.own, root, v, level, final, r, x)
    requires !ok ==> Stopped(s.tables, s.own, s'.tables, s'.own, Elements(s.maps), root, v, level, used > 0)
    ensures MapOrStop(s, s', root, v, level, final)
  {
    if ok {
      forall r, x: nat | r in s.maps
        ensures Trans(s'.tables, s'.own, r, x) == Expected(s.tables, s.own, root, v, level, final, r, x)
      {
        assert r in Elements(s.maps);
      }
      PageSeen(s, s', root, v, level, final);
    }
  }

  /** The frames after `map`. */
  lemma MapAccounts(s: State, op: Op, s': State, used: nat, ok: bool)
    requires InOrder(s) && InOrder(s') && Sane(op) && op.MapPage? && op.which < |s.maps| && s'.maps == s.maps
    requires used <= |s.pool| && s'.pool == s.pool[used..] && Took(s.own.Keys, s'.own.Keys, s.pool, 0, used)
    requires var root := s.maps[op.which];
             && MapLoses(s.tables, s.own, s'.tables, s'.own, Elements(s.maps), root, op.v, op.level,
                  ok && FinalEntry(op.level, op.flags, op.p).Some?)
             && (!ok ==> !FindsTable(s.tables, s.own, root, op.v, op.level))
    ensures Accounts(s, op, s')
  {
    var root, taken := s.maps[op.which], Elements(s.pool[..used]);
    ElementsSplit(s.pool, used);
    assert root in Elements(s.maps) && s.pool[0..used] == s.pool[..used];
    HitReached(s.tables, s.own, Elements(s.maps), root, op.v, op.level);
    LossReached(s, op);
    AccountsTaken(s, op, s', taken);
  }

  lemma AccountsTaken(s: State, op: Op, s': State, taken: set<nat>)
    requires InOrder(s) && InOrder(s') && Sane(op) && Loss(s, op) <= s.own.Keys && Loss(s, op) !! LostIn(s)
    requires s'.own.Keys == s.own.Keys + taken && Elements(s.pool) == taken + Elements(s'.pool)
    requires LostIn(s') == LostIn(s) + Loss(s, op)
    ensures Accounts(s, op, s')
  {
    TakenSets(s.own.Keys, LostIn(s), Elements(s.pool), s'.own.Keys, LostIn(s'), Elements(s'.pool), taken, Loss(s, op));
  }

  lemma ElementsSplit(pool: seq<nat>, n: nat)
    requires n <= |pool|
    ensures Elements(pool) == Elements(pool[..n]) + Elements(pool[n..])
  {
    assert pool == pool[..n] + pool[n..];
  }

  lemma LossReached(s: State, op: Op)
    requires InOrder(s) && Sane(op) && op.MapPage? && op.which < |s.maps|
    ensures Loss(s, op) <= s.own.Keys && Loss(s, op) !! LostIn(s)
  {
    var root := s.maps[op.which];
    assert root in Elements(s.maps);
    HitReached(s.tables, s.own, Elements(s.maps), root, op.v, op.level);
  }

  /** Frames taken from the pool become tables, and some tables are lost. */
  lemma TakenSets(own: set<nat>, lost: set<nat>, pool: set<nat>, own': set<nat>, lost': set<nat>, pool': set<nat>,
                  taken: set<nat>, loss: set<nat>)
    requires own !! pool && lost <= own && loss <= own && loss !! lost
    requires own' == own + taken && pool == taken + pool' && own' !! pool' && lost' == lost + loss
    ensures loss <= (own - lost) + pool && (own' - lost') + pool' == (own - lost) + pool - loss
  {
  }

  /** Tables that are not lost go back to the pool. */
  lemma GivenSets(own: set<nat>, lost: set<nat>, pool: set<nat>, own': set<nat>, lost': set<nat>, pool': set<nat>,
                  gone: set<nat>)
    requires own !! pool && lost <= own && gone <= own
    requires own' == own - gone && pool' == pool + (gone - lost) && lost' == lost - gone
    ensures (own' - lost') + pool' == (own - lost) + pool
  {
  }

  /** Drops a map; its frames go back to the allocator. The static first map is never dropped. */
  method Remove(mm: MemoryManager, maps: seq<nat>, which: nat, pool: seq<nat>)
    returns (maps': seq<nat>, pool': seq<nat>)
    requires At(mm, State(mm.words, mm.tables, mm.own, maps, pool))
    modifies mm
    ensures At(mm, State(mm.words, mm.tables, mm.own, maps', pool')) && maps'[0] == maps[0]
    ensures Accounts(old(State(mm.words, mm.tables, mm.own, maps, pool)), Destroy(which),
              State(mm.words, mm.tables, mm.own, maps', pool'))
    ensures Translates(old(State(mm.words, mm.tables, mm.own, maps, pool)), Destroy(which),
              State(mm.words, mm.tables, mm.own, maps', pool'))
  {
    maps', pool' := maps, pool;
    if 0 < which < |maps| {
      maps' := maps[..which] + maps[which + 1..];
      pool' := Recycle(mm, maps, which, pool);
    }
  }

  method Recycle(mm: MemoryManager, maps: seq<nat>, which: nat, pool: seq<nat>) returns (pool': seq<nat>)
    requires At(mm, State(mm.words, mm.tables, mm.own, maps, pool)) && 0 < which < |maps|
    modifies mm
    ensures var maps' := maps[..which] + maps[which + 1..];
            && At(mm, State(mm.words, mm.tables, mm.own, maps', pool'))
            && Accounts(old(State(mm.words, mm.tables, mm.own, maps, pool)), Destroy(which),
                 State(mm.words, mm.tables, mm.own, maps', pool'))
            && Translates(old(State(mm.words, mm.tables, mm.own, maps, pool)), Destroy(which),
                 State(mm.words, mm.tables, mm.own, maps', pool'))
  {
    ghost var s := State(mm.words, mm.tables, mm.own, maps, pool);
    ghost var maps' := maps[..which] + maps[which + 1..];
    assert maps[which] in Elements(maps) && maps[0] in Elements(maps);
    var freed := mm.Drop(maps[which]);
    ghost var s1 := State(mm.words, mm.tables, mm.own, maps', pool);
    DroppedMap(s, s1, which);
    mm.Scrub(freed);
    pool' := pool + freed;
    PoolJoined(mm, pool, freed, s.own);
    PoolApart(mm, pool');
    DroppedFrames(s, s1, State(mm.words, mm.tables, mm.own, maps', pool'), which, freed);
  }

  lemma PoolJoined(mm: MemoryManager, pool: seq<nat>, freed: seq<nat>, own: Owners)
    requires mm.PoolReady(pool, 0) && NoDup(freed) && forall x | x in freed ::
               Allocated(mm.words, mm.own, x) && x in own
    requires own.Keys !! Elements(pool)
    ensures mm.PoolReady(pool + freed, 0)
  {
    forall j, k | 0 <= j < k < |pool + freed|
      ensures (pool + freed)[j] != (pool + freed)[k]
    {
      if j < |pool| <= k {
        assert pool[j] in Elements(pool) && freed[k - |pool|] in freed;
      }
    }
  }

  lemma OthersLeft(maps: seq<nat>, which: nat)
    requires 0 < which < |maps| && forall j, k | 0 <= j < k < |maps| :: maps[j] != maps[k]
    ensures Elements(maps[..which] + maps[which + 1..]) == Elements(maps) - {maps[which]}
    ensures maps[0] in Elements(maps) && maps[0] != maps[which]
  {
    var maps' := maps[..which] + maps[which + 1..];
    forall x | x in Elements(maps) && x != maps[which]
      ensures x in Elements(maps')
    {
      var k :| 0 <= k < |maps| && maps[k] == x;
      assert maps'[if k < which then k else k - 1] == x;
    }
  }

  /** After the map was dropped, its frames being nowhere yet. */
  lemma DroppedMap(s: State, s1: State, which: nat)
    requires InOrder(s) && 0 < which < |s.maps| && s.maps[which] in Elements(s.maps)
    requires s1 == s.(own := Without(s.own, s.maps[which]), maps := s.maps[..which] + s.maps[which + 1..])
    requires Inv(s1.tables, s1.own, Elements(s.maps) - {s.maps[which]})
    requires forall r, x: nat | r in Elements(s.maps) - {s.maps[which]} ::
               Trans(s1.tables, s1.own, r, x) == Trans(s.tables, s.own, r, x)
    ensures InOrder(s1) && Elements(s1.maps) == Elements(s.maps) - {s.maps[which]}
    ensures LostIn(s1) == LostIn(s) - TablesOf(s.own, s.maps[which]) && Unchanged(s, s1)
    ensures s1.own.Keys == s.own.Keys - TablesOf(s.own, s.maps[which])
  {
    OthersLeft(s.maps, which);
    DropLoses(s.tables, s.own, Elements(s.maps), s.maps[which], s.maps[0]);
  }

  /** The frames of a dropped map, filled with zeroes, are in the pool. */
  ghost predicate Reused(s: State, s1: State, s': State, which: nat, freed: seq<nat>) {
    && InOrder(s) && 0 < which < |s.maps| && InOrder(s1) && s1.maps == s.maps[..which] + s.maps[which + 1..]
    && LostIn(s1) == LostIn(s) - TablesOf(s.own, s.maps[which]) && Unchanged(s, s1)
    && s1.own.Keys == s.own.Keys - TablesOf(s.own, s.maps[which])
    && (set x | x in freed) == TablesOf(s.own, s.maps[which]) - LostIn(s)
    && s'.maps == s1.maps && s'.own == s1.own && s'.pool == s.pool + freed && s'.own.Keys !! Elements(s'.pool)
    && Inv(s'.tables, s'.own, Elements(s1.maps)) && LostIn(s1) == Lost(s'.tables, s'.own, Elements(s1.maps))
    && SameTables(s1.tables, s'.tables, s1.own) && KeptWords(s, s')
  }

  lemma DroppedFrames(s: State, s1: State, s': State, which: nat, freed: seq<nat>)
    requires Reused(s, s1, s', which, freed)
    ensures InOrder(s') && Accounts(s, Destroy(which), s') && Translates(s, Destroy(which), s')
  {
    ReusedAccounts(s, s1, s', which, freed);
    ReusedTranslates(s, s1, s', which, freed);
  }

  lemma ReusedAccounts(s: State, s1: State, s': State, which: nat, freed: seq<nat>)
    requires Reused(s, s1, s', which, freed)
    ensures InOrder(s') && Accounts(s, Destroy(which), s')
  {
    var gone := TablesOf(s.own, s.maps[which]);
    assert Elements(s'.pool) == Elements(s.pool) + (gone - LostIn(s));
    GivenSets(s.own.Keys, LostIn(s), Elements(s.pool), s'.own.Keys, LostIn(s'), Elements(s'.pool), gone);
  }

  lemma ReusedTranslates(s: State, s1: State, s': State, which: nat, freed: seq<nat>)
    requires Reused(s, s1, s', which, freed) && InOrder(s')
    ensures Translates(s, Destroy(which), s')
  {
    forall r, x: nat | r in s'.maps && r in s.maps
      ensures Trans(s'.tables, s'.own, r, x) == Trans(s.tables, s.own, r, x)
    {
      assert r in Elements(s'.maps);
      WalkFrame(s1.tables, s1.own, s'.tables, s'.own, r, x);
    }
  }

  // ---------------------------------------------------------------- whole runs

  /** The states of a run: one before each operation, and one at the end. */
  ghost predicate Trace(trace: seq<State>, ops: seq<Op>) {
    && |trace| == |ops| + 1
    && (forall n | 0 <= n < |trace| :: InOrder(trace[n])) && (forall n | 0 <= n < |ops| :: Sane(ops[n]))
    && forall n: nat | n < |ops| :: StepOf(trace, ops, n)
  }

  ghost predicate StepOf(trace: seq<State>, ops: seq<Op>, n: nat)
    requires |trace| == |ops| + 1 && n < |ops|
    requires (forall k | 0 <= k < |trace| :: InOrder(trace[k])) && (forall k | 0 <= k < |ops| :: Sane(ops[k]))
  {
    Accounts(trace[n], ops[n], trace[n + 1]) && Translates(trace[n], ops[n], trace[n + 1])
  }

  /** All tables that the first n operations wrote over. */
  ghost function LossUpTo(trace: seq<State>, ops: seq<Op>, n: nat): set<nat>
    requires Trace(trace, ops) && n <= |ops|
  {
    if n == 0 then {} else LossUpTo(trace, ops, n - 1) + Loss(trace[n - 1], ops[n - 1])
  }

  /** After n operations the usable frames are those of the start without the tables that were written over. */
  lemma {:induction false} UsableUpTo(trace: seq<State>, ops: seq<Op>, n: nat)
    requires Trace(trace, ops) && n <= |ops|
    ensures LossUpTo(trace, ops, n) <= Usable(trace[0])
    ensures Usable(trace[n]) == Usable(trace[0]) - LossUpTo(trace, ops, n)
    ensures LostIn(trace[n]) <= LostIn(trace[0]) + LossUpTo(trace, ops, n)
  {
    if n > 0 {
      UsableUpTo(trace, ops, n - 1);
      assert StepOf(trace, ops, n - 1);
      LossesAdd(Usable(trace[0]), LostIn(trace[0]), LossUpTo(trace, ops, n - 1), Usable(trace[n - 1]),
        LostIn(trace[n - 1]), Loss(trace[n - 1], ops[n - 1]), Usable(trace[n]), LostIn(trace[n]));
    }
  }

  lemma LossesAdd(u0: set<nat>, l0: set<nat>, sum: set<nat>, u: set<nat>, l: set<nat>, loss: set<nat>, u': set<nat>,
                  l': set<nat>)
    requires sum <= u0 && u == u0 - sum && l <= l0 + sum && loss <= u && u' == u - loss && l' <= l + loss
    ensures sum + loss <= u0 && u' == u0 - (sum + loss) && l' <= l0 + (sum + loss)
  {
  }

  /** The entry of the page that an operation maps refers to a table, and is going to be written. */
  ghost predicate WritesOver(s: State, op: Op)
    requires InOrder(s) && Sane(op)
  {
    && op.MapPage? && op.which < |s.maps| && FinalEntry(op.level, op.flags, op.p).Some?
    && FindsTable(s.tables, s.own, s.maps[op.which], op.v, op.level)
  }

  lemma {:induction false} LossIfWritten(trace: seq<State>, ops: seq<Op>, n: nat)
    requires Trace(trace, ops) && n <= |ops|
    ensures LossUpTo(trace, ops, n) == {} <==> NoneWritten(trace, ops, n)
  {
    if n > 0 {
      LossIfWritten(trace, ops, n - 1);
      LossOfOne(trace, ops, n);
      NoneWrittenSnoc(trace, ops, n);
    }
  }

  lemma LossOfOne(trace: seq<State>, ops: seq<Op>, n: nat)
    requires Trace(trace, ops) && 0 < n <= |ops|
    ensures LossUpTo(trace, ops, n) == {} <==>
            LossUpTo(trace, ops, n - 1) == {} && !WritesOver(trace[n - 1], ops[n - 1])
  {
    LossExactly(trace[n - 1], ops[n - 1]);
    UnionEmpty(LossUpTo(trace, ops, n - 1), Loss(trace[n - 1], ops[n - 1]));
  }

  /** None of the first n operations writes over a reference to a table. */
  ghost predicate NoneWritten(trace: seq<State>, ops: seq<Op>, n: nat)
    requires Trace(trace, ops) && n <= |ops|
  {
    forall k | 0 <= k < n :: !WritesOver(trace[k], ops[k])
  }

  lemma NoneWrittenSnoc(trace: seq<State>, ops: seq<Op>, n: nat)
    requires Trace(trace, ops) && 0 < n <= |ops|
    ensures NoneWritten(trace, ops, n) <==> NoneWritten(trace, ops, n - 1) && !WritesOver(trace[n - 1], ops[n - 1])
  {
  }

  lemma UnionEmpty(a: set<nat>, b: set<nat>)
    ensures a + b == {} <==> a == {} && b == {}
  {
    if a + b == {} {
      assert a <= a + b && b <= a + b;
    }
  }

  lemma LossExactly(s: State, op: Op)
    requires InOrder(s) && Sane(op)
    ensures Loss(s, op) == {} <==> !WritesOver(s, op)
  {
    if op.MapPage? && op.which < |s.maps| {
      assert s.maps[op.which] in Elements(s.maps);
      HitReached(s.tables, s.own, Elements(s.maps), s.maps[op.which], op.v, op.level);
    }
  }

  /** Frames are lost in a run exactly if some `map` writes over a reference to a table. */
  lemma RunLoses(trace: seq<State>, ops: seq<Op>)
    requires Trace(trace, ops)
    ensures Usable(trace[|ops|]) == Usable(trace[0]) - LossUpTo(trace, ops, |ops|)
    ensures Usable(trace[|ops|]) == Usable(trace[0]) <==> NoneWritten(trace, ops, |ops|)
    ensures LostIn(trace[0]) == {} && NoneWritten(trace, ops, |ops|) ==> Stock(trace[|ops|]) == Stock(trace[0])
  {
    UsableUpTo(trace, ops, |ops|);
    LossIfWritten(trace, ops, |ops|);
    if LostIn(trace[0]) == {} && LossUpTo(trace, ops, |ops|) == {} {
      AllStockUsable(trace[0]);
      AllStockUsable(trace[|ops|]);
    }
  }

  lemma AllStockUsable(s: State)
    requires InOrder(s) && LostIn(s) == {}
    ensures Usable(s) == Stock(s)
  {
  }

  /**
   * Whatever is created, mapped and destroyed through whichever map: the tables stay in order, the upper halves stay
   * shared, and all maps translate every kernel address alike. Every operation acts on the translations and on the
   * frames as described. Frames of dropped maps are used again, and frames are lost exactly when a page is mapped over
   * a reference to a table. An operation that finds no frame left does nothing, or maps nothing.
   */
  method Run(mm: MemoryManager, first: nat, ops: seq<Op>, pool: seq<nat>)
    returns (maps: seq<nat>, left: seq<nat>, ghost trace: seq<State>)
    requires mm.Valid() && mm.roots == {first} && mm.PoolReady(pool, 0)
    requires forall k | 0 <= k < |ops| :: Sane(ops[k])
    modifies mm
    ensures Trace(trace, ops) && At(mm, trace[|ops|]) && trace[|ops|] == State(mm.words, mm.tables, mm.own, maps, left)
    ensures trace[0] == old(State(mm.words, mm.tables, mm.own, [first], pool)) && maps[0] == first
    ensures Usable(trace[|ops|]) == Usable(trace[0]) <==> NoneWritten(trace, ops, |ops|)
    ensures LostIn(trace[0]) == {} && NoneWritten(trace, ops, |ops|) ==> Stock(trace[|ops|]) == Stock(trace[0])
    ensures forall r, s, v: nat | r in maps && s in maps && IsKernel(v) ::
              Trans(mm.tables, mm.own, r, v) == Trans(mm.tables, mm.own, s, v)
  {
    maps, left := [first], pool;
    PoolApart(mm, pool);
    assert Elements([first]) == {first};
    trace := [State(mm.words, mm.tables, mm.own, maps, left)];
    for n := 0 to |ops|
      invariant Trace(trace, ops[..n]) && At(mm, trace[n]) && trace[n] == State(mm.words, mm.tables, mm.own, maps, left)
      invariant trace[0] == old(State(mm.words, mm.tables, mm.own, [first], pool)) && maps[0] == first
    {
      maps, left := Step(mm, maps, ops[n], left);
      TraceSnoc(trace, ops, n, State(mm.words, mm.tables, mm.own, maps, left));
      trace := trace + [State(mm.words, mm.tables, mm.own, maps, left)];
    }
    assert ops[..|ops|] == ops;
    RunLoses(trace, ops);
    forall r, s, v: nat | r in maps && s in maps && IsKernel(v)
      ensures Trans(mm.tables, mm.own, r, v) == Trans(mm.tables, mm.own, s, v)
    {
      KernelAgrees(mm.tables, mm.own, mm.roots, r, s, v);
    }
  }

  lemma TraceSnoc(trace: seq<State>, ops: seq<Op>, n: nat, s: State)
    requires n < |ops| && Trace(trace, ops[..n]) && Accounts(trace[n], ops[n], s) && Translates(trace[n], ops[n], s)
    ensures Trace(trace + [s], ops[..n + 1])
  {
    var trace', ops' := trace + [s], ops[..n + 1];
    forall k | 0 <= k < |ops'|
      ensures Sane(ops'[k])
    {
      if k < n { assert Sane(ops[..n][k]); }
    }
    forall k: nat | k < |ops'|
      ensures StepOf(trace', ops', k)
    {
      if k < n { assert StepOf(trace, ops[..n], k); }
    }
  }

  // ---------------------------------------------------------------- a run that loses a frame

  /** A new map is made, a small page and then a large page over it are mapped at address 0, and the map is dropped. */
  function SmallThenLarge(): seq<Op> {
    [Create, MapPage(1, 0, PT, 0, [Present]), MapPage(1, 0, PD, 0, [Present, PageSize]), Destroy(1)]
  }

  /** The walk for a page ends below the level at which it differs from an address that is not mapped. */
  lemma SmallPageTable(tables: Tables, own: Owners, root: nat, v: nat, w: nat)
    requires Sound(tables, own) && root in own && own[root] == Pos(User(root), PML4, 0)
    requires Trans(tables, own, root, v).Some? && Trans(tables, own, root, w).None? && Slot(PD, v) == Slot(PD, w)
    ensures TableAt(tables, own, root, PT, v).Some?
  {
    var t := Walk(tables, own, root, v);
    WalkPage(tables, own, root, v);
    if !t.level.PT? {
      SlotsAbove(PD, t.level, v, w);
      SlotWalk(tables, own, root, v, w);
    }
    EndOfWalk(tables, own, root, PML4, root, v);
  }

  /** The tables down to the level where a walk ends are on it. */
  lemma {:induction false} EndOfWalk(tables: Tables, own: Owners, root: nat, level: Level, f: nat, v: nat)
    requires Sound(tables, own) && root in own && !level.CR3? && TableAt(tables, own, root, level, v) == Some(f)
    requires f in own && own[f].level == level && Walk(tables, own, f, v).Page?
    ensures TableAt(tables, own, root, Walk(tables, own, f, v).level, v).Some?
    decreases 4 - Rank(level)
  {
    assert TableOk(tables, own, f);
    var e := tables[f][Idx(level, v)];
    assert EntryOk(e, own, own[f], Idx(level, v));
    if e.Table? {
      assert TableOk(tables, own, e.addr);
      EndOfWalk(tables, own, root, Below(level), e.addr, v);
    }
  }

  /** Nothing hangs below a table of the lowest level. */
  lemma LowestReach(tables: Tables, own: Owners, c: nat, x: nat)
    requires Sound(tables, own) && c in own && own[c].level == PT
    ensures Reach(tables, own, c, x) <==> x == c
  {
    assert TableOk(tables, own, c);
    assert forall i | 0 <= i < 512 :: EntryOk(tables[c][i], own, own[c], i);
  }

  lemma ZeroSlots()
    ensures Slot(PD, 0) == Slot(PD, 0x1000) && Slot(PT, 0) != Slot(PT, 0x1000) && !IsKernel(0) && !IsKernel(0x1000)
  {
    SlotIsShift(0);
    SlotIsShift(0x1000);
  }

  lemma ThreeMissing(s: State, root: nat)
    requires InOrder(s) && root in Elements(s.maps)
    ensures Missing(s.tables, s.own, root, PT, 0) <= 3
  {
    MissingGrows(s.tables, s.own, root, PT, PT, 0);
  }

  /** The parts of the first two steps that decide the walk. */
  lemma FirstSteps(s0: State, s1: State, s2: State)
    requires InOrder(s0) && InOrder(s1) && InOrder(s2) && |s0.maps| == 1 && |s0.pool| >= 4
    requires Sane(SmallThenLarge()[1]) && Translates(s0, Create, s1) && Translates(s1, SmallThenLarge()[1], s2)
    ensures s1.maps == s0.maps + [s0.pool[0]] && s1.pool == s0.pool[1..] && NewMap(s0, s1, s0.pool[0])
    ensures s2.maps == s1.maps && MapOrStop(s1, s2, s1.maps[1], 0, PT, FinalEntry(PT, [Present], 0))
  {
  }

  /** After the first two operations, the walk for address 0 has a table of the lowest level. */
  lemma SmallPageMapped(s0: State, s1: State, s2: State)
    requires InOrder(s0) && InOrder(s1) && InOrder(s2) && |s0.maps| == 1 && |s0.pool| >= 4
    requires Sane(SmallThenLarge()[1])
    requires Translates(s0, Create, s1) && Translates(s1, SmallThenLarge()[1], s2)
    ensures s2.maps == s1.maps && |s1.maps| == 2 && TableAt(s2.tables, s2.own, s2.maps[1], PT, 0).Some?
  {
    FirstSteps(s0, s1, s2);
    SmallPageWalk(s0, s1, s2);
  }

  lemma SmallPageWalk(s0: State, s1: State, s2: State)
    requires InOrder(s0) && InOrder(s1) && InOrder(s2) && |s0.maps| == 1 && |s0.pool| >= 4
    requires s1.maps == s0.maps + [s0.pool[0]] && s1.pool == s0.pool[1..] && NewMap(s0, s1, s0.pool[0])
    requires s2.maps == s1.maps && MapOrStop(s1, s2, s1.maps[1], 0, PT, FinalEntry(PT, [Present], 0))
    ensures |s1.maps| == 2 && TableAt(s2.tables, s2.own, s2.maps[1], PT, 0).Some?
  {
    ZeroSlots();
    var a := s1.maps[1];
    assert a in Elements(s1.maps) && a !in s0.maps;
    ThreeMissing(s1, a);
    assert Trans(s1.tables, s1.own, a, 0) == None && Trans(s1.tables, s1.own, a, 0x1000) == None;
    assert PageMapped(s1, s2, a, 0, PT, FinalEntry(PT, [Present], 0));
    assert FinalEntry(PT, [Present], 0) == Some(Page(PT, 0));
    assert Trans(s2.tables, s2.own, a, 0) == Some(0);
    assert Trans(s2.tables, s2.own, a, 0x1000) == None;
    SmallPageTable(s2.tables, s2.own, a, 0, 0x1000);
  }

  /** In this run exactly one frame is lost: the table of the lowest level that the small page needed. */
  lemma LostFrame(trace: seq<State>) returns (c: nat)
    requires Trace(trace, SmallThenLarge()) && |trace[0].maps| == 1 && |trace[0].pool| >= 4
    ensures WritesOver(trace[2], SmallThenLarge()[2])
    ensures c in Usable(trace[0]) && Usable(trace[4]) == Usable(trace[0]) - {c}
  {
    var ops := SmallThenLarge();
    c := OneTableHit(trace, ops);
    FourLosses(trace, ops, c);
    UsableUpTo(trace, ops, |ops|);
  }

  lemma OneTableHit(trace: seq<State>, ops: seq<Op>) returns (c: nat)
    requires ops == SmallThenLarge() && Trace(trace, ops) && |trace[0].maps| == 1 && |trace[0].pool| >= 4
    ensures WritesOver(trace[2], ops[2]) && Loss(trace[2], ops[2]) == {c}
  {
    assert StepOf(trace, ops, 0) && StepOf(trace, ops, 1);
    SmallPageMapped(trace[0], trace[1], trace[2]);
    var s := trace[2];
    c := TableAt(s.tables, s.own, s.maps[1], PT, 0).value;
    OverwritesOne(s, c);
  }

  lemma FourLosses(trace: seq<State>, ops: seq<Op>, c: nat)
    requires ops == SmallThenLarge() && Trace(trace, ops) && Loss(trace[2], ops[2]) == {c}
    ensures LossUpTo(trace, ops, |ops|) == {c}
  {
    assert Loss(trace[0], ops[0]) == {} && Loss(trace[1], ops[1]) == {} && Loss(trace[3], ops[3]) == {};
    var n := 0;
    while n < |ops|
      invariant n <= |ops| && LossUpTo(trace, ops, n) == if n <= 2 then {} else {c}
    {
      n := n + 1;
    }
  }

  lemma OverwritesOne(s: State, c: nat)
    requires InOrder(s) && |s.maps| == 2 && TableAt(s.tables, s.own, s.maps[1], PT, 0) == Some(c)
    requires Sane(SmallThenLarge()[2])
    ensures WritesOver(s, SmallThenLarge()[2]) && Loss(s, SmallThenLarge()[2]) == {c}
  {
    TableAtOwned(s.tables, s.own, s.maps[1], PT, 0);
    forall x | x in s.own
      ensures Reach(s.tables, s.own, c, x) <==> x == c
    {
      LowestReach(s.tables, s.own, c, x);
    }
    assert FinalEntry(PD, [Present, PageSize], 0).Some?;
  }

  /** At the end of it only the first map is left. */
  lemma FirstMapLeft(trace: seq<State>, ops: seq<Op>)
    requires ops == SmallThenLarge() && Trace(trace, ops) && |trace[0].maps| == 1 && |trace[0].pool| >= 4
    ensures trace[4].maps == trace[0].maps
  {
    assert StepOf(trace, ops, 0) && StepOf(trace, ops, 1) && StepOf(trace, ops, 2) && StepOf(trace, ops, 3);
    var maps := trace[0].maps + [trace[0].pool[0]];
    assert trace[3].maps == maps;
    assert maps[..1] + maps[2..] == trace[0].maps;
  }

  /** The run on any memory manager and any four frames: one frame is lost, and the maps are as before. */
  method LoseFrame(mm: MemoryManager, first: nat, pool: seq<nat>) returns (left: seq<nat>, ghost c: nat)
    requires mm.Valid() && mm.roots == {first} && mm.PoolReady(pool, 0) && |pool| >= 4
    modifies mm
    ensures old(InOrder(State(mm.words, mm.tables, mm.own, [first], pool))) &&
            At(mm, State(mm.words, mm.tables, mm.own, [first], left))
    ensures c in old(Usable(State(mm.words, mm.tables, mm.own, [first], pool)))
    ensures Usable(State(mm.words, mm.tables, mm.own, [first], left)) ==
            old(Usable(State(mm.words, mm.tables, mm.own, [first], pool))) - {c}
  {
    var maps;
    ghost var trace;
    maps, left, trace := Run(mm, first, SmallThenLarge(), pool);
    FirstMapLeft(trace, SmallThenLarge());
    c := LostFrame(trace);
  }
}
