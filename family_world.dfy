/**
 * The server side of the family protocol over an abstract ECS world: entities are
 * numbers, each component kind is a map from entity to its record, and the world
 * keeps an outbox of server events and a log of error messages.
 *
 * `FamilyMembers` is a derived index: every `Actor` carries the entity of its family,
 * and the `record_new_members` / `update_members` observer pair appends each new
 * actor to its family's list. The invariant `Valid` says the index and the actors
 * agree. Deferred commands and observer dispatch are collapsed: each observer runs as
 * one atomic step right after the spawn that fires it.
 */
module FamilyWorld {
  import opened Wire
  import opened Reflect
  import opened FamilyCodec

  type Entity = nat
  type ClientId = nat

  /** Exclusive upper bound of a `u32`. */
  const U32_LIMIT: nat := 0x1_0000_0000

  type u32 = x: int | 0 <= x < U32_LIMIT

  /** `Budget::default()`: the money a new family starts with. */
  const DEFAULT_BUDGET: u32 := 20_000

  /** The `(Family, Name, Budget)` components of a family entity. */
  datatype FamilyRecord = FamilyRecord(name: seq<byte>, budget: u32)

  /** An actor: its `Actor { family_entity }`, its `Parent` and its reflected bundle. */
  datatype ActorRecord = ActorRecord(family: Entity, parent: Entity, payload: Payload)

  /** The replicon send modes the family handlers use. */
  datatype SendMode = Direct(client: ClientId)

  /** `ToClients { mode, event: SelectedFamilyCreated }` targeted at a family. */
  datatype ServerEvent = SelectedFamilyCreated(mode: SendMode, family: Entity)

  /** Error-level log lines. */
  datatype LogEntry = InvalidFamily(entity: Entity)

  /** The first `n` entity ids from `lo` on, in spawn order. */
  function Ids(lo: Entity, n: nat): (r: seq<Entity>)
    ensures |r| == n && forall i :: 0 <= i < n ==> r[i] == lo + i
  {
    seq(n, i => lo + i)
  }

  /** The actors `create` spawns for family `f` under `parent`, ids right after `f`. */
  function Spawned(f: Entity, parent: Entity, ps: seq<Payload>): (r: map<Entity, ActorRecord>)
    ensures forall a :: a in r <==> f < a <= f + |ps|
    ensures forall a :: a in r ==> r[a] == ActorRecord(f, parent, ps[a - f - 1])
  {
    if ps == [] then map[]
    else Spawned(f, parent, ps[..|ps| - 1])[f + |ps| := ActorRecord(f, parent, ps[|ps| - 1])]
  }

  /** The set of entities listed in `s`. */
  function Listed(s: seq<Entity>): set<Entity>
  {
    set i | 0 <= i < |s| :: s[i]
  }

  // ---------------------------------------------------------------------------
  // The member index

  /** Every list entry is an actor of that family. */
  predicate MembersAreActors(members: map<Entity, seq<Entity>>, actors: map<Entity, ActorRecord>)
  {
    forall f, i :: f in members && 0 <= i < |members[f]| ==>
      members[f][i] in actors && actors[members[f][i]].family == f
  }

  /** No actor is listed twice. */
  predicate NoRepeats(members: map<Entity, seq<Entity>>)
  {
    forall f, i, j :: f in members && 0 <= i < j < |members[f]| ==> members[f][i] != members[f][j]
  }

  /** Every actor is listed by its own family. */
  predicate ActorsAreListed(members: map<Entity, seq<Entity>>, actors: map<Entity, ActorRecord>)
  {
    forall a :: a in actors ==> actors[a].family in members && a in members[actors[a].family]
  }

  /**
   * `FamilyMembers` agrees with the actors: families and member lists have the same
   * keys (a `Family` requires `FamilyMembers`), and a list holds exactly the actors of
   * its family, each once.
   */
  predicate Indexed(families: map<Entity, FamilyRecord>, members: map<Entity, seq<Entity>>,
                    actors: map<Entity, ActorRecord>)
  {
    && members.Keys == families.Keys
    && MembersAreActors(members, actors)
    && NoRepeats(members)
    && ActorsAreListed(members, actors)
  }

  /** An entity is in the list iff it is an actor of the family. */
  lemma MembersExactly(families: map<Entity, FamilyRecord>, members: map<Entity, seq<Entity>>,
                       actors: map<Entity, ActorRecord>, f: Entity)
    requires Indexed(families, members, actors) && f in members
    ensures Listed(members[f]) == set a | a in actors && actors[a].family == f
  {
  }

  /** A freshly spawned family starts with an empty list. */
  lemma IndexedAddFamily(families: map<Entity, FamilyRecord>, members: map<Entity, seq<Entity>>,
                         actors: map<Entity, ActorRecord>, f: Entity, rec: FamilyRecord)
    requires Indexed(families, members, actors) && f !in families
    ensures Indexed(families[f := rec], members[f := []], actors)
  {
  }

  /** Spawning an actor of `f` and appending it to `f`'s list keeps the index. */
  lemma IndexedAddMember(families: map<Entity, FamilyRecord>, members: map<Entity, seq<Entity>>,
                         actors: map<Entity, ActorRecord>, a: Entity, rec: ActorRecord)
    requires Indexed(families, members, actors) && rec.family in members && a !in actors
    ensures Indexed(families, members[rec.family := members[rec.family] + [a]], actors[a := rec])
  {
    var f := rec.family;
    var members' := members[f := members[f] + [a]];
    var actors' := actors[a := rec];
    forall g, i | g in members' && 0 <= i < |members'[g]|
      ensures members'[g][i] in actors' && actors'[members'[g][i]].family == g
    {
      if g == f && i == |members[f]| {
      } else {
        assert members'[g][i] == members[g][i];
      }
    }
    forall g, i, j | g in members' && 0 <= i < j < |members'[g]|
      ensures members'[g][i] != members'[g][j]
    {
      if g == f && j == |members[f]| {
        assert members[f][i] in actors;
      }
    }
    forall b | b in actors'
      ensures actors'[b].family in members' && b in members'[actors'[b].family]
    {
      if b == a {
        assert members'[f][|members[f]|] == a;
      } else {
        var g := actors[b].family;
        var i :| 0 <= i < |members[g]| && members[g][i] == b;
        assert members'[g][i] == b;
      }
    }
  }

  /** Despawning a family and exactly its members keeps the index. */
  lemma IndexedRemoveFamily(families: map<Entity, FamilyRecord>, members: map<Entity, seq<Entity>>,
                            actors: map<Entity, ActorRecord>, f: Entity)
    requires Indexed(families, members, actors) && f in members
    ensures Indexed(families - {f}, members - {f}, actors - Listed(members[f]))
  {
    var gone := Listed(members[f]);
    forall g, i | g in members - {f} && 0 <= i < |members[g]|
      ensures members[g][i] !in gone
    {
    }
    forall a | a in actors - gone
      ensures actors[a].family != f
    {
    }
  }

  /** Ids below `next` are spent; families, actors and the rest are distinct entities. */
  predicate Fresh(next: Entity, families: set<Entity>, actors: set<Entity>, others: set<Entity>)
  {
    && (forall e :: e in families ==> e < next)
    && (forall e :: e in actors ==> e < next)
    && (forall e :: e in others ==> e < next)
    && families !! actors && families !! others && actors !! others
  }

  // ---------------------------------------------------------------------------
  // The world

  class World {
    /** The next entity id the world hands out; ids are never reused. */
    var nextId: Entity
    /** Entities with `Family` (and the `Name` and `Budget` it requires). */
    var families: map<Entity, FamilyRecord>
    /** `FamilyMembers` of each family. */
    var members: map<Entity, seq<Entity>>
    /** Entities with `Actor`. */
    var actors: map<Entity, ActorRecord>
    /** Every other live entity (the city a family is placed in, for example). */
    var others: set<Entity>
    /** Entities with `SelectedActor`. */
    var selectedActors: set<Entity>
    /** Entities with `SelectedFamily`. */
    var selectedFamilies: set<Entity>
    /** Server events queued for sending. */
    var outbox: seq<ServerEvent>
    /** Error-level log lines. */
    var log: seq<LogEntry>

    /** The live entities. */
    function Live(): set<Entity>
      reads this
    {
      families.Keys + actors.Keys + others
    }

    predicate Valid()
      reads this
    {
      && Indexed(families, members, actors)
      && Fresh(nextId, families.Keys, actors.Keys, others)
      && selectedActors <= actors.Keys
      && selectedFamilies <= families.Keys
    }

    constructor ()
      ensures Valid()
      ensures families == map[] && members == map[] && actors == map[] && others == {}
      ensures selectedActors == {} && selectedFamilies == {} && outbox == [] && log == []
    {
      nextId := 0;
      families := map[];
      members := map[];
      actors := map[];
      others := {};
      selectedActors := {};
      selectedFamilies := {};
      outbox := [];
      log := [];
    }

    /**
     * `update_members`: the family `family` receives `FamilyMemberAdded(member)` and
     * pushes it onto its `FamilyMembers`. The source unwraps the lookup, so the family
     * must have the component.
     */
    method UpdateMembers(family: Entity, member: Entity)
      requires family in members
      modifies this
      ensures members == old(members)[family := old(members)[family] + [member]]
      ensures nextId == old(nextId) && families == old(families) && actors == old(actors)
      ensures others == old(others) && selectedActors == old(selectedActors)
      ensures selectedFamilies == old(selectedFamilies) && outbox == old(outbox) && log == old(log)
    {
      members := members[family := members[family] + [member]];
    }

    /**
     * `record_new_members`: an `Actor` was added to `actor`; the event goes to the
     * actor's family, whose `update_members` appends it. Both lookups are unwrapped.
     */
    method RecordNewMembers(actor: Entity)
      requires actor in actors && actors[actor].family in members
      modifies this
      ensures members == old(members)[old(actors[actor].family) := old(members[actors[actor].family]) + [actor]]
      ensures nextId == old(nextId) && families == old(families) && actors == old(actors)
      ensures others == old(others) && selectedActors == old(selectedActors)
      ensures selectedFamilies == old(selectedFamilies) && outbox == old(outbox) && log == old(log)
    {
      UpdateMembers(actors[actor].family, actor);
    }

    /**
     * `create`: spawns one family named after the request, then one actor per payload,
     * in order, each a child of the event's target; each spawn fires the member index.
     * When the request asks to select the family, the requesting client alone is told
     * which entity it is. The target is used only as the actors' parent: a request
     * with actors aimed at an entity that no longer exists panics in
     * `commands.entity(target)` before any of the handler's commands are applied, and
     * the world is left as it was; a request without actors never looks it up.
     */
    method Create(client: ClientId, target: Entity, request: FamilyCreate) returns (family: Entity, panicked: bool)
      requires Valid()
      modifies this
      ensures Valid()
      ensures panicked <==> |request.scene.actors| > 0 && target !in old(Live())
      ensures panicked ==> nextId == old(nextId) && families == old(families) && members == old(members)
      ensures panicked ==> actors == old(actors) && outbox == old(outbox)
      ensures !panicked ==> family !in old(Live()) && family in families
      ensures !panicked ==> families == old(families)[family := FamilyRecord(request.scene.name, DEFAULT_BUDGET)]
      ensures !panicked ==> members == old(members)[family := Ids(family + 1, |request.scene.actors|)]
      ensures !panicked ==> actors == old(actors) + Spawned(family, target, request.scene.actors)
      ensures !panicked ==> old(actors).Keys !! Spawned(family, target, request.scene.actors).Keys
      ensures !panicked ==> |members[family]| == |request.scene.actors|
      ensures !panicked && request.select ==> outbox == old(outbox) + [SelectedFamilyCreated(Direct(client), family)]
      ensures !panicked && !request.select ==> outbox == old(outbox)
      ensures others == old(others) && selectedActors == old(selectedActors)
      ensures selectedFamilies == old(selectedFamilies) && log == old(log)
    {
      if |request.scene.actors| > 0 && target !in Live() {
        return nextId, true;
      }
      panicked := false;
      family := SpawnFamily(request.scene.name);
      SpawnActors(family, target, request.scene.actors);
      if request.select {
        outbox := outbox + [SelectedFamilyCreated(Direct(client), family)];
      }
    }

    /** The loop of `create`: one actor per payload, in order, as children of `parent`. */
    method SpawnActors(family: Entity, parent: Entity, ps: seq<Payload>)
      requires Valid() && family in families && members[family] == [] && nextId == family + 1
      modifies this
      ensures Valid()
      ensures nextId == old(nextId) + |ps|
      ensures members == old(members)[family := Ids(family + 1, |ps|)]
      ensures actors == old(actors) + Spawned(family, parent, ps)
      ensures families == old(families) && others == old(others) && selectedActors == old(selectedActors)
      ensures selectedFamilies == old(selectedFamilies) && outbox == old(outbox) && log == old(log)
    {
      var i := 0;
      while i < |ps|
        invariant 0 <= i <= |ps|
        invariant nextId == family + 1 + i
        invariant members == old(members)[family := Ids(family + 1, i)]
        invariant actors == old(actors) + Spawned(family, parent, ps[..i])
        invariant Valid()
        invariant families == old(families) && others == old(others) && selectedActors == old(selectedActors)
        invariant selectedFamilies == old(selectedFamilies) && outbox == old(outbox) && log == old(log)
      {
        var actor := SpawnActor(family, parent, ps[i]);
        SpawnedStep(old(actors), family, parent, ps, i);
        IdsSnoc(family + 1, i);
        i := i + 1;
      }
      assert ps[..i] == ps;
    }

    /** `commands.spawn((Family, Name::new(name)))`, with the components `Family` requires. */
    method SpawnFamily(name: seq<byte>) returns (family: Entity)
      requires Valid()
      modifies this
      ensures Valid()
      ensures family == old(nextId) && nextId == family + 1
      ensures families == old(families)[family := FamilyRecord(name, DEFAULT_BUDGET)]
      ensures members == old(members)[family := []]
      ensures actors == old(actors) && others == old(others) && selectedActors == old(selectedActors)
      ensures selectedFamilies == old(selectedFamilies) && outbox == old(outbox) && log == old(log)
    {
      family := nextId;
      FreshSpawn(nextId, families.Keys, actors.Keys, others);
      IndexedAddFamily(families, members, actors, family, FamilyRecord(name, DEFAULT_BUDGET));
      families := families[family := FamilyRecord(name, DEFAULT_BUDGET)];
      members := members[family := []];
      nextId := nextId + 1;
    }

    /**
     * One pass of `create`'s loop: spawn `Actor { family_entity }` with the payload under
     * `parent`; its `OnAdd` fires `record_new_members`, which appends it to the family.
     */
    method SpawnActor(family: Entity, parent: Entity, payload: Payload) returns (actor: Entity)
      requires Valid() && family in families
      modifies this
      ensures Valid()
      ensures actor == old(nextId) && nextId == actor + 1
      ensures actors == old(actors)[actor := ActorRecord(family, parent, payload)]
      ensures members == old(members)[family := old(members[family]) + [actor]]
      ensures families == old(families) && others == old(others) && selectedActors == old(selectedActors)
      ensures selectedFamilies == old(selectedFamilies) && outbox == old(outbox) && log == old(log)
    {
      actor := nextId;
      FreshSpawn(nextId, families.Keys, actors.Keys, others);
      var rec := ActorRecord(family, parent, payload);
      IndexedAddMember(families, members, actors, actor, rec);
      actors := actors[actor := rec];
      nextId := nextId + 1;
      RecordNewMembers(actor);
    }

    /**
     * `delete`: when the target has `FamilyMembers`, despawns it and then every listed
     * member; any other target only produces an error line.
     */
    method Delete(target: Entity)
      requires Valid()
      modifies this
      ensures Valid()
      ensures old(target in members) ==>
        && families == old(families) - {target}
        && members == old(members) - {target}
        && actors == old(actors) - Listed(old(members[target]))
        && selectedActors == old(selectedActors) - Listed(old(members[target]))
        && selectedFamilies == old(selectedFamilies) - {target}
        && log == old(log)
      ensures old(target !in members) ==>
        && families == old(families) && members == old(members) && actors == old(actors)
        && selectedActors == old(selectedActors) && selectedFamilies == old(selectedFamilies)
        && log == old(log) + [InvalidFamily(target)]
      ensures nextId == old(nextId) && others == old(others) && outbox == old(outbox)
    {
      if target !in members {
        log := log + [InvalidFamily(target)];
        return;
      }
      var listed := members[target];
      Despawn(target);
      var i := 0;
      while i < |listed|
        invariant 0 <= i <= |listed|
        invariant actors == old(actors) - Listed(listed[..i])
        invariant selectedActors == old(selectedActors) - Listed(listed[..i])
        invariant families == old(families) - {target} && members == old(members) - {target}
        invariant selectedFamilies == old(selectedFamilies) - {target}
        invariant nextId == old(nextId) && others == old(others) && outbox == old(outbox) && log == old(log)
      {
        ListedSnoc(listed, i);
        Despawn(listed[i]);
        i := i + 1;
      }
      assert listed[..i] == listed;
      IndexedRemoveFamily(old(families), old(members), old(actors), target);
      FreshShrink(nextId, old(families).Keys, old(actors).Keys, others, {target}, Listed(listed));
    }

    /**
     * `despawn` (and `despawn_recursive`, whose descendants are not entities of this
     * model): the entity loses every component it had.
     */
    method Despawn(e: Entity)
      modifies this
      ensures families == old(families) - {e} && members == old(members) - {e}
      ensures actors == old(actors) - {e} && others == old(others) - {e}
      ensures selectedActors == old(selectedActors) - {e} && selectedFamilies == old(selectedFamilies) - {e}
      ensures nextId == old(nextId) && outbox == old(outbox) && log == old(log)
    {
      families := families - {e};
      members := members - {e};
      actors := actors - {e};
      others := others - {e};
      selectedActors := selectedActors - {e};
      selectedFamilies := selectedFamilies - {e};
    }

    /**
     * `select`, run on entering family mode: when exactly one actor is selected, its
     * family gets `SelectedFamily`. With no or several selected actors the system
     * does not run.
     */
    method Select()
      requires Valid()
      modifies this
      ensures Valid()
      ensures forall a :: SoleSelected(a) ==> selectedFamilies == old(selectedFamilies) + {actors[a].family}
      ensures |selectedActors| != 1 ==> selectedFamilies == old(selectedFamilies)
      ensures nextId == old(nextId) && families == old(families) && members == old(members)
      ensures actors == old(actors) && others == old(others) && selectedActors == old(selectedActors)
      ensures outbox == old(outbox) && log == old(log)
    {
      if |selectedActors| == 1 {
        var a :| a in selectedActors;
        SoleElement(selectedActors, a);
        selectedFamilies := selectedFamilies + {actors[a].family};
      }
    }

    /** `deselect`, run on leaving family mode: the reverse of `Select`. */
    method Deselect()
      requires Valid()
      modifies this
      ensures Valid()
      ensures forall a :: SoleSelected(a) ==> selectedFamilies == old(selectedFamilies) - {actors[a].family}
      ensures |selectedActors| != 1 ==> selectedFamilies == old(selectedFamilies)
      ensures nextId == old(nextId) && families == old(families) && members == old(members)
      ensures actors == old(actors) && others == old(others) && selectedActors == old(selectedActors)
      ensures outbox == old(outbox) && log == old(log)
    {
      if |selectedActors| == 1 {
        var a :| a in selectedActors;
        SoleElement(selectedActors, a);
        selectedFamilies := selectedFamilies - {actors[a].family};
      }
    }

    /** `a` is the one entity with `SelectedActor`. */
    predicate SoleSelected(a: Entity)
      reads this
    {
      selectedActors == {a}
    }
  }

  lemma SoleElement(s: set<Entity>, a: Entity)
    requires |s| == 1 && a in s
    ensures s == {a}
  {
    var rest := s - {a};
    assert |rest| == 0;
    assert rest == {};
  }

  /**
   * After `create`, the family's list names, in order, one actor per payload, each
   * carrying that payload, the family and the parent, and the actors that were
   * already there keep their records.
   */
  lemma SpawnedInOrder(before: map<Entity, ActorRecord>, f: Entity, parent: Entity, ps: seq<Payload>)
    requires forall a :: a in before ==> a <= f
    ensures var after := before + Spawned(f, parent, ps);
      && (forall i :: 0 <= i < |ps| ==>
            Ids(f + 1, |ps|)[i] in after && after[Ids(f + 1, |ps|)[i]] == ActorRecord(f, parent, ps[i]))
      && (forall a :: a in before ==> a in after && after[a] == before[a])
  {
  }

  /**
   * Deleting a family right after creating it leaves the families, their member lists
   * and the actors as they were before the creation.
   */
  lemma DeleteUndoesCreate(families: map<Entity, FamilyRecord>, members: map<Entity, seq<Entity>>,
                           actors: map<Entity, ActorRecord>, f: Entity, rec: FamilyRecord,
                           parent: Entity, ps: seq<Payload>)
    requires f !in families && members.Keys == families.Keys
    requires forall a :: a in actors ==> a <= f
    ensures families[f := rec] - {f} == families
    ensures members[f := Ids(f + 1, |ps|)] - {f} == members
    ensures (actors + Spawned(f, parent, ps)) - Listed(Ids(f + 1, |ps|)) == actors
  {
    var ids := Ids(f + 1, |ps|);
    var after := (actors + Spawned(f, parent, ps)) - Listed(ids);
    forall a | a in Spawned(f, parent, ps)
      ensures a in Listed(ids)
    {
      assert ids[a - f - 1] == a;
    }
    assert after.Keys == actors.Keys;
  }

  lemma SpawnedSnoc(f: Entity, parent: Entity, ps: seq<Payload>, i: nat)
    requires i < |ps|
    ensures Spawned(f, parent, ps[..i + 1]) == Spawned(f, parent, ps[..i])[f + 1 + i := ActorRecord(f, parent, ps[i])]
  {
    assert ps[..i + 1][..i] == ps[..i];
  }

  lemma SpawnedStep(before: map<Entity, ActorRecord>, f: Entity, parent: Entity, ps: seq<Payload>, i: nat)
    requires i < |ps|
    ensures (before + Spawned(f, parent, ps[..i]))[f + 1 + i := ActorRecord(f, parent, ps[i])]
         == before + Spawned(f, parent, ps[..i + 1])
  {
    SpawnedSnoc(f, parent, ps, i);
  }

  lemma IdsSnoc(lo: Entity, n: nat)
    ensures Ids(lo, n) + [lo + n] == Ids(lo, n + 1)
  {
  }

  lemma FreshSpawn(next: Entity, families: set<Entity>, actors: set<Entity>, others: set<Entity>)
    requires Fresh(next, families, actors, others)
    ensures Fresh(next + 1, families + {next}, actors, others)
    ensures Fresh(next + 1, families, actors + {next}, others)
  {
  }

  lemma FreshShrink(next: Entity, families: set<Entity>, actors: set<Entity>, others: set<Entity>,
                    goneFamilies: set<Entity>, goneActors: set<Entity>)
    requires Fresh(next, families, actors, others)
    ensures Fresh(next, families - goneFamilies, actors - goneActors, others)
  {
  }

  lemma ListedSnoc(s: seq<Entity>, i: nat)
    requires i < |s|
    ensures Listed(s[..i + 1]) == Listed(s[..i]) + {s[i]}
  {
    assert s[..i + 1] == s[..i] + [s[i]];
  }

  // ---------------------------------------------------------------------------
  // Pure parts of the family module

  /** `FamilyMode`: the sub-state of the family view. */
  datatype FamilyMode = Life | Building

  /** `FamilyMode::glyph`: the emoji shown for each mode. */
  function Glyph(mode: FamilyMode): (g: string)
    ensures |g| == 1
  {
    match mode
    case Life => "\U{1F46A}"
    case Building => "\U{1F3E0}"
  }

  /** Each mode has its own glyph. */
  lemma GlyphsDistinct(a: FamilyMode, b: FamilyMode)
    ensures Glyph(a) == Glyph(b) <==> a == b
  {
  }

}
