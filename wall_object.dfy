/**
 * Bookkeeping of the openings (doors, windows) cut into walls. Each wall keeps a list
 * of `WallOpening`s; each opening object keeps an `ObjectCutout` naming the wall it
 * currently sits in. `openings_update_system` moves an object's opening between walls
 * when the object moves, and `cutout_cleanup_system` drops the openings of objects
 * whose cutout was removed.
 *
 * The float geometry is abstract: whether a point lies in a wall is a parameter
 * `within`, standing for `within_wall`.
 */
module WallObject {
  import opened Optional

  type Entity = nat

  datatype Vec2 = Vec2(x: real, y: real)
  datatype Vec3 = Vec3(x: real, y: real, z: real)

  /** `Vec3::xz`: the point on the ground plane below a translation. */
  function Xz(v: Vec3): Vec2
  {
    Vec2(v.x, v.z)
  }

  /** `Wall`: a segment on the ground plane. */
  datatype Wall = Wall(start: Vec2, end: Vec2)

  /** `within_wall`, left abstract: does the point lie in the wall? */
  type Region = (Wall, Vec2) -> bool

  /** `WallOpening`: the cutout of one object as recorded by a wall. */
  datatype WallOpening = WallOpening(objectEntity: Entity, translation: Vec3, positions: seq<Vec3>)

  /** `ObjectCutout`: the cutout's vertices and the wall the object is in, if any. */
  datatype ObjectCutout = ObjectCutout(positions: seq<Vec3>, wallEntity: Option<Entity>)

  /**
   * `ObjectCutout::new`: the mesh's vertex positions converted in order; a new
   * cutout is in no wall yet.
   */
  function NewCutout(vertices: seq<(real, real, real)>): (c: ObjectCutout)
    ensures |c.positions| == |vertices|
    ensures forall i :: 0 <= i < |vertices| ==>
      c.positions[i] == Vec3(vertices[i].0, vertices[i].1, vertices[i].2)
    ensures c.wallEntity == None
  {
    ObjectCutout(seq(|vertices|, i requires 0 <= i < |vertices| => Vec3(vertices[i].0, vertices[i].1, vertices[i].2)), None)
  }

  // ---------------------------------------------------------------------------
  // One wall's list of openings

  /** How many openings of `owner` the list holds. */
  function Count(s: seq<WallOpening>, owner: Entity): nat
  {
    if s == [] then 0
    else Count(s[..|s| - 1], owner) + (if s[|s| - 1].objectEntity == owner then 1 else 0)
  }

  /** The list without any opening of `owner`, the rest in order. */
  function Without(s: seq<WallOpening>, owner: Entity): seq<WallOpening>
  {
    if s == [] then []
    else Without(s[..|s| - 1], owner) + (if s[|s| - 1].objectEntity == owner then [] else [s[|s| - 1]])
  }

  /** `position(|opening| opening.object_entity == object)`: the first opening of `owner`. */
  function IndexOf(s: seq<WallOpening>, owner: Entity): (r: Option<nat>)
    ensures r.Some? ==> r.value < |s| && s[r.value].objectEntity == owner
    ensures r.Some? ==> forall j :: 0 <= j < r.value ==> s[j].objectEntity != owner
    ensures r.None? ==> forall j :: 0 <= j < |s| ==> s[j].objectEntity != owner
  {
    if s == [] then None
    else if s[0].objectEntity == owner then Some(0)
    else match IndexOf(s[1..], owner)
      case None => None
      case Some(k) => Some(k + 1)
  }

  /** Removes the first opening of `owner`, if there is one; the rest keep their order. */
  function RemoveFirst(s: seq<WallOpening>, owner: Entity): (r: seq<WallOpening>)
    ensures IndexOf(s, owner).None? ==> r == s
    ensures IndexOf(s, owner).Some? ==> |r| == |s| - 1
  {
    match IndexOf(s, owner)
    case None => s
    case Some(k) => s[..k] + s[k + 1..]
  }

  /** Sets the translation of the first opening of `owner`, if there is one. */
  function UpdateTranslation(s: seq<WallOpening>, owner: Entity, translation: Vec3): (r: seq<WallOpening>)
    ensures |r| == |s|
    ensures forall j :: 0 <= j < |s| ==> r[j].objectEntity == s[j].objectEntity && r[j].positions == s[j].positions
    ensures IndexOf(s, owner).None? ==> r == s
  {
    match IndexOf(s, owner)
    case None => s
    case Some(k) => s[k := s[k].(translation := translation)]
  }

  lemma {:induction false} CountAppend(a: seq<WallOpening>, b: seq<WallOpening>, owner: Entity)
    ensures Count(a + b, owner) == Count(a, owner) + Count(b, owner)
    decreases |b|
  {
    if b == [] {
      assert a + b == a;
    } else {
      var b' := b[..|b| - 1];
      assert (a + b)[..|a + b| - 1] == a + b';
      CountAppend(a, b', owner);
    }
  }

  lemma CountSingle(op: WallOpening, owner: Entity)
    ensures Count([op], owner) == if op.objectEntity == owner then 1 else 0
  {
    assert [op][..0] == [];
  }

  lemma CountSplit(s: seq<WallOpening>, k: nat, owner: Entity)
    requires k < |s|
    ensures Count(s, owner) == Count(s[..k], owner) + Count([s[k]], owner) + Count(s[k + 1..], owner)
  {
    assert s == s[..k] + [s[k]] + s[k + 1..];
    CountAppend(s[..k] + [s[k]], s[k + 1..], owner);
    CountAppend(s[..k], [s[k]], owner);
  }

  /** No opening of `owner` in the list means a zero count, and the other way round. */
  lemma {:induction false} CountZero(s: seq<WallOpening>, owner: Entity)
    ensures Count(s, owner) == 0 <==> forall j :: 0 <= j < |s| ==> s[j].objectEntity != owner
  {
    if s != [] {
      CountZero(s[..|s| - 1], owner);
      assert forall j :: 0 <= j < |s| - 1 ==> s[..|s| - 1][j] == s[j];
    }
  }

  /** Removing the first opening of `owner` lowers its count by one and leaves the others'. */
  lemma RemoveFirstCount(s: seq<WallOpening>, owner: Entity, other: Entity)
    ensures Count(RemoveFirst(s, owner), other) ==
      if other == owner && Count(s, owner) > 0 then Count(s, other) - 1 else Count(s, other)
  {
    match IndexOf(s, owner)
    case None =>
      CountZero(s, owner);
    case Some(k) =>
      CountSplit(s, k, other);
      CountSplit(s, k, owner);
      CountSingle(s[k], other);
      CountSingle(s[k], owner);
      CountAppend(s[..k], s[k + 1..], other);
  }

  /**
   * A list holding at most one opening of `owner`: removing the first one is the same
   * as removing them all, so the other openings keep their relative order.
   */
  lemma RemoveFirstIsWithout(s: seq<WallOpening>, owner: Entity)
    requires Count(s, owner) <= 1
    ensures RemoveFirst(s, owner) == Without(s, owner)
  {
    match IndexOf(s, owner)
    case None =>
      CountZero(s, owner);
      WithoutNone(s, owner);
    case Some(k) =>
      CountSplit(s, k, owner);
      CountSingle(s[k], owner);
      CountZero(s[..k], owner);
      CountZero(s[k + 1..], owner);
      WithoutSplit(s, k, owner);
      WithoutNone(s[..k], owner);
      WithoutNone(s[k + 1..], owner);
  }

  lemma {:induction false} WithoutNone(s: seq<WallOpening>, owner: Entity)
    requires forall j :: 0 <= j < |s| ==> s[j].objectEntity != owner
    ensures Without(s, owner) == s
  {
    if s != [] {
      WithoutNone(s[..|s| - 1], owner);
    }
  }

  lemma {:induction false} WithoutAppend(a: seq<WallOpening>, b: seq<WallOpening>, owner: Entity)
    ensures Without(a + b, owner) == Without(a, owner) + Without(b, owner)
    decreases |b|
  {
    if b == [] {
      assert a + b == a;
    } else {
      var b' := b[..|b| - 1];
      assert (a + b)[..|a + b| - 1] == a + b';
      WithoutAppend(a, b', owner);
    }
  }

  lemma WithoutSplit(s: seq<WallOpening>, k: nat, owner: Entity)
    requires k < |s| && s[k].objectEntity == owner
    ensures Without(s, owner) == Without(s[..k], owner) + Without(s[k + 1..], owner)
  {
    assert s == s[..k] + [s[k]] + s[k + 1..];
    WithoutAppend(s[..k] + [s[k]], s[k + 1..], owner);
    WithoutAppend(s[..k], [s[k]], owner);
    assert [s[k]][..0] == [];
  }

  /** Updating a translation keeps every object's count and every other opening. */
  lemma UpdateTranslationKeeps(s: seq<WallOpening>, owner: Entity, translation: Vec3, other: Entity)
    ensures Count(UpdateTranslation(s, owner, translation), other) == Count(s, other)
    ensures Without(UpdateTranslation(s, owner, translation), owner) == Without(s, owner)
  {
    match IndexOf(s, owner)
    case None =>
    case Some(k) =>
      var r := UpdateTranslation(s, owner, translation);
      assert r[..k] == s[..k] && r[k + 1..] == s[k + 1..];
      CountSplit(s, k, other);
      CountSplit(r, k, other);
      CountSingle(s[k], other);
      CountSingle(r[k], other);
      WithoutSplit(s, k, owner);
      WithoutSplit(r, k, owner);
  }

  /** After the update, the first opening of `owner` carries the new translation. */
  lemma UpdateTranslationSets(s: seq<WallOpening>, owner: Entity, translation: Vec3)
    requires Count(s, owner) > 0
    ensures exists j :: (0 <= j < |s| && UpdateTranslation(s, owner, translation)[j].objectEntity == owner
      && UpdateTranslation(s, owner, translation)[j].translation == translation)
  {
    if IndexOf(s, owner).None? {
      CountZero(s, owner);
    } else {
      var k := IndexOf(s, owner).value;
      assert UpdateTranslation(s, owner, translation)[k].translation == translation;
    }
  }

  // ---------------------------------------------------------------------------
  // Choosing the wall

  /** The position, in query order, of the first wall that contains `point`. */
  function FirstWithin(walls: seq<Entity>, geometry: map<Entity, Wall>, within: Region, point: Vec2): (r: Option<nat>)
    requires forall i :: 0 <= i < |walls| ==> walls[i] in geometry
    ensures r.Some? ==> r.value < |walls| && within(geometry[walls[r.value]], point)
    ensures r.Some? ==> forall j :: 0 <= j < r.value ==> !within(geometry[walls[j]], point)
    ensures r.None? ==> forall j :: 0 <= j < |walls| ==> !within(geometry[walls[j]], point)
  {
    if walls == [] then None
    else if within(geometry[walls[0]], point) then Some(0)
    else match FirstWithin(walls[1..], geometry, within, point)
      case None => None
      case Some(k) => Some(k + 1)
  }

  /** The wall `openings_update_system` picks for `point`. */
  function TargetWall(walls: seq<Entity>, geometry: map<Entity, Wall>, within: Region, point: Vec2): (r: Option<Entity>)
    requires forall i :: 0 <= i < |walls| ==> walls[i] in geometry
    ensures r.Some? ==> r.value in walls && r.value in geometry && within(geometry[r.value], point)
    ensures r.None? <==> forall j :: 0 <= j < |walls| ==> !within(geometry[walls[j]], point)
  {
    match FirstWithin(walls, geometry, within, point)
    case None => None
    case Some(k) => Some(walls[k])
  }

  // ---------------------------------------------------------------------------
  // The placement invariant

  /** The openings of every wall and the cutout of every opening object. */
  datatype Placement = Placement(openings: map<Entity, seq<WallOpening>>, cutouts: map<Entity, ObjectCutout>)

  /** The wall query lists each wall once, and the walls are those with openings and geometry. */
  ghost predicate WallsListed(walls: seq<Entity>, geometry: map<Entity, Wall>, p: Placement)
  {
    && (forall i, j :: 0 <= i < j < |walls| ==> walls[i] != walls[j])
    && (forall i :: 0 <= i < |walls| ==> walls[i] in geometry)
    && (forall w :: w in p.openings <==> w in walls)
  }

  /** No wall lists an object twice. */
  ghost predicate AtMostOnce(p: Placement)
  {
    forall w, owner :: w in p.openings ==> Count(p.openings[w], owner) <= 1
  }

  /**
   * The invariant the update keeps: an object with a cutout is listed by the wall its
   * `wall_entity` names, once, and by no other wall.
   */
  ghost predicate Tracked(p: Placement)
  {
    && (forall owner :: owner in p.cutouts && p.cutouts[owner].wallEntity.Some? ==>
          p.cutouts[owner].wallEntity.value in p.openings)
    && (forall owner, w :: owner in p.cutouts && w in p.openings ==>
          Count(p.openings[w], owner) == if p.cutouts[owner].wallEntity == Some(w) then 1 else 0)
  }

  ghost predicate Consistent(walls: seq<Entity>, geometry: map<Entity, Wall>, p: Placement)
  {
    WallsListed(walls, geometry, p) && AtMostOnce(p) && Tracked(p)
  }

  /**
   * One pass of `openings_update_system` for `owner`, now at `translation`: find the
   * wall it lies in; same wall as before: update the opening's translation; another or
   * no previous wall: push a new opening there and remove the one in the previous wall;
   * no wall: remove the opening from the previous wall, if any, and clear `wall_entity`.
   */
  ghost function Relocate(walls: seq<Entity>, geometry: map<Entity, Wall>, within: Region, p: Placement,
                    owner: Entity, translation: Vec3): (q: Placement)
    requires Consistent(walls, geometry, p) && owner in p.cutouts
    ensures q.openings.Keys == p.openings.Keys && q.cutouts.Keys == p.cutouts.Keys
  {
    var cutout := p.cutouts[owner];
    match TargetWall(walls, geometry, within, Xz(translation))
    case Some(w) =>
      if cutout.wallEntity == Some(w) then
        Placement(p.openings[w := UpdateTranslation(p.openings[w], owner, translation)], p.cutouts)
      else
        var pushed := p.openings[w := p.openings[w] + [WallOpening(owner, translation, cutout.positions)]];
        var moved := p.cutouts[owner := cutout.(wallEntity := Some(w))];
        if cutout.wallEntity.None? then Placement(pushed, moved)
        else
          var previous := cutout.wallEntity.value;
          Placement(pushed[previous := RemoveFirst(pushed[previous], owner)], moved)
    case None =>
      if cutout.wallEntity.None? then p
      else
        var previous := cutout.wallEntity.value;
        Placement(p.openings[previous := RemoveFirst(p.openings[previous], owner)],
                  p.cutouts[owner := cutout.(wallEntity := None)])
  }

  /**
   * A placement that differs from a consistent one only in where `owner` sits, with
   * every other object's counts kept, is consistent again.
   */
  lemma ConsistentAfterMove(walls: seq<Entity>, geometry: map<Entity, Wall>, p: Placement, q: Placement,
                            owner: Entity, target: Option<Entity>)
    requires Consistent(walls, geometry, p) && owner in p.cutouts
    requires q.openings.Keys == p.openings.Keys
    requires q.cutouts == p.cutouts[owner := p.cutouts[owner].(wallEntity := target)]
    requires target.Some? ==> target.value in p.openings
    requires forall v, x :: v in q.openings && x != owner ==> Count(q.openings[v], x) == Count(p.openings[v], x)
    requires forall v :: v in q.openings ==> Count(q.openings[v], owner) == if target == Some(v) then 1 else 0
    ensures Consistent(walls, geometry, q)
  {
    forall v, x | v in q.openings
      ensures Count(q.openings[v], x) <= 1
    {
      if x != owner {
        assert Count(q.openings[v], x) == Count(p.openings[v], x);
      }
    }
  }

  /** Effect on the counts of pushing `owner`'s opening onto wall `w`. */
  lemma PushCount(openings: map<Entity, seq<WallOpening>>, w: Entity, op: WallOpening, v: Entity, x: Entity)
    requires w in openings && v in openings
    ensures Count(openings[w := openings[w] + [op]][v], x) ==
      Count(openings[v], x) + if v == w && op.objectEntity == x then 1 else 0
  {
    CountAppend(openings[w], [op], x);
    CountSingle(op, x);
  }

  /** Effect on the counts of removing `owner`'s first opening from wall `a`. */
  lemma RemoveCount(openings: map<Entity, seq<WallOpening>>, a: Entity, owner: Entity, v: Entity, x: Entity)
    requires a in openings && v in openings
    ensures Count(openings[a := RemoveFirst(openings[a], owner)][v], x) ==
      if v == a && x == owner && Count(openings[a], owner) > 0 then Count(openings[v], x) - 1 else Count(openings[v], x)
  {
    RemoveFirstCount(openings[a], owner, x);
  }

  /** The object stays in its wall: only its opening's translation changes. */
  lemma RelocateSameWall(walls: seq<Entity>, geometry: map<Entity, Wall>, within: Region, p: Placement,
                         owner: Entity, translation: Vec3, w: Entity)
    requires Consistent(walls, geometry, p) && owner in p.cutouts
    requires TargetWall(walls, geometry, within, Xz(translation)) == Some(w) == p.cutouts[owner].wallEntity
    ensures Consistent(walls, geometry, Relocate(walls, geometry, within, p, owner, translation))
  {
    var q := Relocate(walls, geometry, within, p, owner, translation);
    forall v, x | v in q.openings
      ensures Count(q.openings[v], x) == Count(p.openings[v], x)
    {
      UpdateTranslationKeeps(p.openings[w], owner, translation, x);
    }
    assert p.cutouts[owner := p.cutouts[owner].(wallEntity := Some(w))] == p.cutouts;
    ConsistentAfterMove(walls, geometry, p, q, owner, Some(w));
  }

  /** The object enters wall `w` from no wall, or from another wall. */
  lemma RelocateNewWall(walls: seq<Entity>, geometry: map<Entity, Wall>, within: Region, p: Placement,
                        owner: Entity, translation: Vec3, w: Entity)
    requires Consistent(walls, geometry, p) && owner in p.cutouts
    requires TargetWall(walls, geometry, within, Xz(translation)) == Some(w) != p.cutouts[owner].wallEntity
    ensures Consistent(walls, geometry, Relocate(walls, geometry, within, p, owner, translation))
  {
    FirstWithinListed(walls, geometry, within, Xz(translation));
    var cutout := p.cutouts[owner];
    var pushed := p.openings[w := p.openings[w] + [WallOpening(owner, translation, cutout.positions)]];
    var moved := p.cutouts[owner := cutout.(wallEntity := Some(w))];
    if cutout.wallEntity.None? {
      EnterWall(walls, geometry, p, owner, WallOpening(owner, translation, cutout.positions), w);
    } else {
      var previous := cutout.wallEntity.value;
      assert Relocate(walls, geometry, within, p, owner, translation)
          == Placement(pushed[previous := RemoveFirst(pushed[previous], owner)], moved);
      MoveWall(walls, geometry, p, owner, WallOpening(owner, translation, cutout.positions), previous, w);
    }
  }

  lemma EnterWall(walls: seq<Entity>, geometry: map<Entity, Wall>, p: Placement, owner: Entity,
                  op: WallOpening, w: Entity)
    requires Consistent(walls, geometry, p) && owner in p.cutouts && op.objectEntity == owner
    requires w in p.openings && p.cutouts[owner].wallEntity == None
    ensures Consistent(walls, geometry, Placement(p.openings[w := p.openings[w] + [op]],
                                                  p.cutouts[owner := p.cutouts[owner].(wallEntity := Some(w))]))
  {
    var q := Placement(p.openings[w := p.openings[w] + [op]], p.cutouts[owner := p.cutouts[owner].(wallEntity := Some(w))]);
    forall v, x | v in q.openings
      ensures Count(q.openings[v], x) == if x == owner then (if v == w then 1 else 0) else Count(p.openings[v], x)
    {
      PushCount(p.openings, w, op, v, x);
    }
    ConsistentAfterMove(walls, geometry, p, q, owner, Some(w));
  }

  lemma MoveWall(walls: seq<Entity>, geometry: map<Entity, Wall>, p: Placement, owner: Entity,
                 op: WallOpening, previous: Entity, w: Entity)
    requires Consistent(walls, geometry, p) && owner in p.cutouts && op.objectEntity == owner
    requires w in p.openings && p.cutouts[owner].wallEntity == Some(previous) && previous != w
    ensures var pushed := p.openings[w := p.openings[w] + [op]];
      Consistent(walls, geometry, Placement(pushed[previous := RemoveFirst(pushed[previous], owner)],
                                            p.cutouts[owner := p.cutouts[owner].(wallEntity := Some(w))]))
  {
    var pushed := p.openings[w := p.openings[w] + [op]];
    var q := Placement(pushed[previous := RemoveFirst(pushed[previous], owner)],
                       p.cutouts[owner := p.cutouts[owner].(wallEntity := Some(w))]);
    forall v, x | v in q.openings
      ensures Count(q.openings[v], x) == if x == owner then (if v == w then 1 else 0) else Count(p.openings[v], x)
    {
      PushCount(p.openings, w, op, v, x);
      PushCount(p.openings, w, op, previous, owner);
      RemoveCount(pushed, previous, owner, v, x);
    }
    ConsistentAfterMove(walls, geometry, p, q, owner, Some(w));
  }

  /** The object leaves every wall. */
  lemma RelocateNoWall(walls: seq<Entity>, geometry: map<Entity, Wall>, within: Region, p: Placement,
                       owner: Entity, translation: Vec3)
    requires Consistent(walls, geometry, p) && owner in p.cutouts
    requires TargetWall(walls, geometry, within, Xz(translation)) == None
    ensures Consistent(walls, geometry, Relocate(walls, geometry, within, p, owner, translation))
  {
    var cutout := p.cutouts[owner];
    var q := Relocate(walls, geometry, within, p, owner, translation);
    if cutout.wallEntity.Some? {
      forall v, x | v in q.openings
        ensures Count(q.openings[v], x) == if x == owner then 0 else Count(p.openings[v], x)
      {
        RemoveCount(p.openings, cutout.wallEntity.value, owner, v, x);
      }
      ConsistentAfterMove(walls, geometry, p, q, owner, None);
    }
  }

  lemma FirstWithinListed(walls: seq<Entity>, geometry: map<Entity, Wall>, within: Region, point: Vec2)
    requires forall i :: 0 <= i < |walls| ==> walls[i] in geometry
    ensures TargetWall(walls, geometry, within, point).Some? ==> TargetWall(walls, geometry, within, point).value in walls
  {
  }

  /**
   * `openings_update_system` keeps the placement invariant, and afterwards the object's
   * `wall_entity` is the first wall that contains it, or none; its cutout keeps its
   * vertices, and no other object's cutout changes.
   */
  lemma RelocatePlaces(walls: seq<Entity>, geometry: map<Entity, Wall>, within: Region, p: Placement,
                       owner: Entity, translation: Vec3)
    requires Consistent(walls, geometry, p) && owner in p.cutouts
    ensures var q := Relocate(walls, geometry, within, p, owner, translation);
      && Consistent(walls, geometry, q)
      && q.openings.Keys == p.openings.Keys
      && q.cutouts == p.cutouts[owner := p.cutouts[owner].(wallEntity := TargetWall(walls, geometry, within, Xz(translation)))]
  {
    match TargetWall(walls, geometry, within, Xz(translation))
    case None =>
      RelocateNoWall(walls, geometry, within, p, owner, translation);
    case Some(w) =>
      if p.cutouts[owner].wallEntity == Some(w) {
        RelocateSameWall(walls, geometry, within, p, owner, translation, w);
        assert p.cutouts[owner := p.cutouts[owner].(wallEntity := Some(w))] == p.cutouts;
      } else {
        RelocateNewWall(walls, geometry, within, p, owner, translation, w);
      }
  }

  /**
   * Every wall keeps the openings of the other objects, in the same order; only walls
   * the object leaves or enters change at all.
   */
  lemma RelocateKeepsOthers(walls: seq<Entity>, geometry: map<Entity, Wall>, within: Region, p: Placement,
                            owner: Entity, translation: Vec3)
    requires Consistent(walls, geometry, p) && owner in p.cutouts
    ensures var q := Relocate(walls, geometry, within, p, owner, translation);
      forall v :: v in p.openings ==> v in q.openings && Without(q.openings[v], owner) == Without(p.openings[v], owner)
    ensures var q := Relocate(walls, geometry, within, p, owner, translation);
      forall v :: v in p.openings && Some(v) != p.cutouts[owner].wallEntity
                  && Some(v) != TargetWall(walls, geometry, within, Xz(translation)) ==>
        q.openings[v] == p.openings[v]
  {
    var target := TargetWall(walls, geometry, within, Xz(translation));
    var q := Relocate(walls, geometry, within, p, owner, translation);
    RelocateOpenings(walls, geometry, within, p, owner, translation);
    var cutout := p.cutouts[owner];
    if target.Some? {
      FirstWithinListed(walls, geometry, within, Xz(translation));
    }
    var w := if target.Some? then target.value else owner;
    if target.Some? && cutout.wallEntity != target {
      var op := WallOpening(owner, translation, cutout.positions);
      WithoutPush(p.openings[w], op);
      ReplaceKeepsOthers(p.openings, w, p.openings[w] + [op], owner);
    }
    var staged := if target.Some? && cutout.wallEntity != target
                  then p.openings[w := p.openings[w] + [WallOpening(owner, translation, cutout.positions)]]
                  else p.openings;
    if target.Some? && cutout.wallEntity == target {
      UpdateTranslationKeeps(p.openings[w], owner, translation, owner);
      ReplaceKeepsOthers(p.openings, w, UpdateTranslation(p.openings[w], owner, translation), owner);
    } else if cutout.wallEntity.Some? {
      var previous := cutout.wallEntity.value;
      RemoveKeepsOthers(staged[previous], owner);
      ReplaceKeepsOthers(staged, previous, RemoveFirst(staged[previous], owner), owner);
    }
    forall v | v in p.openings
      ensures v in q.openings && Without(q.openings[v], owner) == Without(p.openings[v], owner)
    {
      assert v in staged && Without(staged[v], owner) == Without(p.openings[v], owner);
    }
    forall v | v in p.openings && Some(v) != cutout.wallEntity && Some(v) != target
      ensures q.openings[v] == p.openings[v]
    {
      assert staged[v] == p.openings[v];
    }
  }

  /** The openings `Relocate` leaves, written case by case. */
  lemma RelocateOpenings(walls: seq<Entity>, geometry: map<Entity, Wall>, within: Region, p: Placement,
                         owner: Entity, translation: Vec3)
    requires Consistent(walls, geometry, p) && owner in p.cutouts
    ensures var q := Relocate(walls, geometry, within, p, owner, translation);
      var target := TargetWall(walls, geometry, within, Xz(translation));
      var cutout := p.cutouts[owner];
      var staged := if target.Some? && cutout.wallEntity != target
                    then p.openings[target.value := p.openings[target.value] + [WallOpening(owner, translation, cutout.positions)]]
                    else p.openings;
      && (target.Some? && cutout.wallEntity == target ==>
            q.openings == p.openings[target.value := UpdateTranslation(p.openings[target.value], owner, translation)])
      && (!(target.Some? && cutout.wallEntity == target) && cutout.wallEntity.None? ==> q.openings == staged)
      && (!(target.Some? && cutout.wallEntity == target) && cutout.wallEntity.Some? ==>
            q.openings == staged[cutout.wallEntity.value := RemoveFirst(staged[cutout.wallEntity.value], owner)])
  {
  }

  /** Replacing one wall's list by one that agrees on every other object keeps the rest. */
  lemma ReplaceKeepsOthers(m: map<Entity, seq<WallOpening>>, k: Entity, s: seq<WallOpening>, owner: Entity)
    requires k in m && Without(s, owner) == Without(m[k], owner)
    ensures forall v :: v in m ==> v in m[k := s] && Without(m[k := s][v], owner) == Without(m[v], owner)
    ensures forall v :: v in m && v != k ==> m[k := s][v] == m[v]
  {
  }

  lemma RemoveKeepsOthers(s: seq<WallOpening>, owner: Entity)
    requires Count(s, owner) <= 1
    ensures Without(RemoveFirst(s, owner), owner) == Without(s, owner)
  {
    RemoveFirstIsWithout(s, owner);
    WithoutTwice(s, owner);
  }

  /** In the wall it lands in, the object's opening carries its new translation. */
  lemma RelocateSetsTranslation(walls: seq<Entity>, geometry: map<Entity, Wall>, within: Region, p: Placement,
                                owner: Entity, translation: Vec3, w: Entity)
    requires Consistent(walls, geometry, p) && owner in p.cutouts
    requires TargetWall(walls, geometry, within, Xz(translation)) == Some(w)
    ensures var q := Relocate(walls, geometry, within, p, owner, translation);
      w in q.openings && exists j :: (0 <= j < |q.openings[w]| && q.openings[w][j].objectEntity == owner
                                      && q.openings[w][j].translation == translation)
  {
    var q := Relocate(walls, geometry, within, p, owner, translation);
    FirstWithinListed(walls, geometry, within, Xz(translation));
    if p.cutouts[owner].wallEntity == Some(w) {
      UpdateTranslationSets(p.openings[w], owner, translation);
    } else {
      var pushed := p.openings[w] + [WallOpening(owner, translation, p.cutouts[owner].positions)];
      assert q.openings[w] == pushed;
      assert pushed[|pushed| - 1].translation == translation;
    }
  }

  lemma WithoutPush(s: seq<WallOpening>, op: WallOpening)
    ensures Without(s + [op], op.objectEntity) == Without(s, op.objectEntity)
  {
    assert (s + [op])[..|s|] == s;
  }

  lemma {:induction false} WithoutTwice(s: seq<WallOpening>, owner: Entity)
    ensures Without(Without(s, owner), owner) == Without(s, owner)
  {
    if s != [] {
      var last := s[|s| - 1];
      var init := Without(s[..|s| - 1], owner);
      WithoutTwice(s[..|s| - 1], owner);
      if last.objectEntity != owner {
        assert Without(s, owner) == init + [last];
        assert (init + [last])[..|init|] == init;
        assert Without(init + [last], owner) == Without(init, owner) + [last];
      } else {
        assert Without(s, owner) == init;
      }
    }
  }

  /** A fresh cutout names no wall, so an object no wall lists can get one. */
  lemma NewCutoutConsistent(walls: seq<Entity>, geometry: map<Entity, Wall>, p: Placement,
                            owner: Entity, vertices: seq<(real, real, real)>)
    requires Consistent(walls, geometry, p) && owner !in p.cutouts
    requires forall v :: v in p.openings ==> Count(p.openings[v], owner) == 0
    ensures Consistent(walls, geometry, Placement(p.openings, p.cutouts[owner := NewCutout(vertices)]))
  {
  }

  /** The placement after `openings_update_system` has handled each changed object in turn. */
  ghost function RelocateAll(walls: seq<Entity>, geometry: map<Entity, Wall>, within: Region, p: Placement,
                             changed: seq<(Entity, Vec3)>): (q: Placement)
    requires Consistent(walls, geometry, p)
    requires forall i :: 0 <= i < |changed| ==> changed[i].0 in p.cutouts
    ensures Consistent(walls, geometry, q)
    ensures q.openings.Keys == p.openings.Keys && q.cutouts.Keys == p.cutouts.Keys
    decreases |changed|
  {
    if changed == [] then p
    else
      var last := changed[|changed| - 1];
      var mid := RelocateAll(walls, geometry, within, p, changed[..|changed| - 1]);
      RelocatePlaces(walls, geometry, within, mid, last.0, last.1);
      Relocate(walls, geometry, within, mid, last.0, last.1)
  }

  // ---------------------------------------------------------------------------
  // Cleaning up removed cutouts

  /** Removes the first opening of each entity in `removed`, in order. */
  function RemoveEach(s: seq<WallOpening>, removed: seq<Entity>): seq<WallOpening>
  {
    if removed == [] then s
    else RemoveFirst(RemoveEach(s, removed[..|removed| - 1]), removed[|removed| - 1])
  }

  /** The list without any opening of an entity in `gone`, the rest in order. */
  function Purged(s: seq<WallOpening>, gone: set<Entity>): seq<WallOpening>
  {
    if s == [] then []
    else Purged(s[..|s| - 1], gone) + (if s[|s| - 1].objectEntity in gone then [] else [s[|s| - 1]])
  }

  function Members(removed: seq<Entity>): set<Entity>
  {
    set i | 0 <= i < |removed| :: removed[i]
  }

  lemma {:induction false} PurgedCount(s: seq<WallOpening>, gone: set<Entity>, x: Entity)
    ensures Count(Purged(s, gone), x) == if x in gone then 0 else Count(s, x)
  {
    if s != [] {
      var last := s[|s| - 1];
      var init := Purged(s[..|s| - 1], gone);
      PurgedCount(s[..|s| - 1], gone, x);
      if last.objectEntity !in gone {
        CountAppend(init, [last], x);
        CountSingle(last, x);
      } else {
        assert Purged(s, gone) == init;
      }
    }
  }

  lemma {:induction false} WithoutPurged(s: seq<WallOpening>, gone: set<Entity>, e: Entity)
    ensures Without(Purged(s, gone), e) == Purged(s, gone + {e})
  {
    if s != [] {
      var last := s[|s| - 1];
      var init := Purged(s[..|s| - 1], gone);
      WithoutPurged(s[..|s| - 1], gone, e);
      if last.objectEntity !in gone {
        assert Purged(s, gone) == init + [last];
        assert (init + [last])[..|init|] == init;
        assert Without(init + [last], e) == Without(init, e) + (if last.objectEntity == e then [] else [last]);
      } else {
        assert Purged(s, gone) == init;
      }
    }
  }

  /**
   * On a wall that lists each object at most once, removing the first opening of each
   * removed entity leaves exactly the openings of the other objects, in their order.
   */
  lemma {:induction false} RemoveEachPurges(s: seq<WallOpening>, removed: seq<Entity>)
    requires forall x :: Count(s, x) <= 1
    ensures RemoveEach(s, removed) == Purged(s, Members(removed))
  {
    if removed == [] {
      PurgedNone(s);
      assert Members(removed) == {};
    } else {
      var init := removed[..|removed| - 1];
      var e := removed[|removed| - 1];
      RemoveEachPurges(s, init);
      PurgedCount(s, Members(init), e);
      RemoveFirstIsWithout(Purged(s, Members(init)), e);
      WithoutPurged(s, Members(init), e);
      assert Members(removed) == Members(init) + {e};
    }
  }

  lemma {:induction false} PurgedNone(s: seq<WallOpening>)
    ensures Purged(s, {}) == s
  {
    if s != [] {
      PurgedNone(s[..|s| - 1]);
    }
  }

  /** Removals never add openings, and leave the objects not removed alone. */
  lemma {:induction false} RemoveEachCount(s: seq<WallOpening>, removed: seq<Entity>, x: Entity)
    ensures Count(RemoveEach(s, removed), x) <= Count(s, x)
    ensures x !in Members(removed) ==> Count(RemoveEach(s, removed), x) == Count(s, x)
  {
    if removed != [] {
      var init := removed[..|removed| - 1];
      RemoveEachCount(s, init, x);
      RemoveFirstCount(RemoveEach(s, init), removed[|removed| - 1], x);
      assert Members(removed) == Members(init) + {removed[|removed| - 1]};
    }
  }

  /** `cutout_cleanup_system` keeps the placement invariant. */
  lemma CleanupConsistent(walls: seq<Entity>, geometry: map<Entity, Wall>, p: Placement, q: Placement,
                          removed: seq<Entity>)
    requires Consistent(walls, geometry, p)
    requires forall i :: 0 <= i < |removed| ==> removed[i] !in p.cutouts
    requires q.cutouts == p.cutouts && q.openings.Keys == p.openings.Keys
    requires forall v :: v in q.openings ==> q.openings[v] == RemoveEach(p.openings[v], removed)
    ensures Consistent(walls, geometry, q)
  {
    forall v, x | v in q.openings
      ensures Count(q.openings[v], x) <= 1
    {
      RemoveEachCount(p.openings[v], removed, x);
    }
    assert AtMostOnce(q);
    forall x, v | x in q.cutouts && v in q.openings
      ensures Count(q.openings[v], x) == if q.cutouts[x].wallEntity == Some(v) then 1 else 0
    {
      RemoveEachCount(p.openings[v], removed, x);
    }
    assert Tracked(q);
    assert WallsListed(walls, geometry, q);
  }

  // ---------------------------------------------------------------------------
  // The systems

  /** `iter().position(...)`: scans the list for the first opening of `owner`. */
  method Position(s: seq<WallOpening>, owner: Entity) returns (r: Option<nat>)
    ensures r == IndexOf(s, owner)
  {
    var i := 0;
    while i < |s|
      invariant 0 <= i <= |s|
      invariant forall j :: 0 <= j < i ==> s[j].objectEntity != owner
    {
      if s[i].objectEntity == owner {
        IndexOfFirst(s, owner, i);
        return Some(i);
      }
      i := i + 1;
    }
    IndexOfNone(s, owner);
    return None;
  }

  lemma IndexOfFirst(s: seq<WallOpening>, owner: Entity, i: nat)
    requires i < |s| && s[i].objectEntity == owner
    requires forall j :: 0 <= j < i ==> s[j].objectEntity != owner
    ensures IndexOf(s, owner) == Some(i)
  {
  }

  lemma IndexOfNone(s: seq<WallOpening>, owner: Entity)
    requires forall j :: 0 <= j < |s| ==> s[j].objectEntity != owner
    ensures IndexOf(s, owner) == None
  {
  }

  lemma FirstWithinAt(walls: seq<Entity>, geometry: map<Entity, Wall>, within: Region, point: Vec2, i: nat)
    requires forall j :: 0 <= j < |walls| ==> walls[j] in geometry
    requires i < |walls| && within(geometry[walls[i]], point)
    requires forall j :: 0 <= j < i ==> !within(geometry[walls[j]], point)
    ensures FirstWithin(walls, geometry, within, point) == Some(i)
  {
  }

  /** The walls, their openings, and the cutouts of the opening objects. */
  class WallWorld {
    /** Wall entities in the order the wall query yields them. */
    var walls: seq<Entity>
    /** `Wall` of each wall entity. */
    var geometry: map<Entity, Wall>
    /** `WallOpenings` of each wall entity. */
    var openings: map<Entity, seq<WallOpening>>
    /** `ObjectCutout` of each opening object. */
    var cutouts: map<Entity, ObjectCutout>

    function Placed(): Placement
      reads this
    {
      Placement(openings, cutouts)
    }

    ghost predicate Valid()
      reads this
    {
      Consistent(walls, geometry, Placed())
    }

    /** `walls.iter_mut().find(|wall| within_wall(wall, point))`. */
    method FindWall(within: Region, point: Vec2) returns (r: Option<Entity>)
      requires forall i :: 0 <= i < |walls| ==> walls[i] in geometry
      ensures r == TargetWall(walls, geometry, within, point)
    {
      var i := 0;
      while i < |walls|
        invariant 0 <= i <= |walls|
        invariant forall j :: 0 <= j < i ==> !within(geometry[walls[j]], point)
      {
        if within(geometry[walls[i]], point) {
          FirstWithinAt(walls, geometry, within, point, i);
          return Some(walls[i]);
        }
        i := i + 1;
      }
      return None;
    }

    /** `WallOpenings::remove_existing`, and the `position` / `remove` pair of the cleanup. */
    method RemoveExisting(w: Entity, owner: Entity)
      requires w in openings
      modifies this
      ensures openings == old(openings)[w := RemoveFirst(old(openings)[w], owner)]
      ensures walls == old(walls) && geometry == old(geometry) && cutouts == old(cutouts)
    {
      var list := openings[w];
      var index := Position(list, owner);
      if index.Some? {
        openings := openings[w := list[..index.value] + list[index.value + 1..]];
      }
    }

    /** `WallOpenings::update_translation`. */
    method UpdateTranslationOf(w: Entity, owner: Entity, translation: Vec3)
      requires w in openings
      modifies this
      ensures openings == old(openings)[w := UpdateTranslation(old(openings)[w], owner, translation)]
      ensures walls == old(walls) && geometry == old(geometry) && cutouts == old(cutouts)
    {
      var list := openings[w];
      var index := Position(list, owner);
      if index.Some? {
        openings := openings[w := list[index.value := list[index.value].(translation := translation)]];
      }
    }

    /** The body of `openings_update_system`'s loop for one changed object. */
    method UpdateOpening(within: Region, owner: Entity, translation: Vec3)
      requires Valid() && owner in cutouts
      modifies this
      ensures Valid()
      ensures walls == old(walls) && geometry == old(geometry)
      ensures Placed() == Relocate(walls, geometry, within, old(Placed()), owner, translation)
    {
      ghost var before := Placed();
      ghost var after := Relocate(walls, geometry, within, before, owner, translation);
      RelocatePlaces(walls, geometry, within, before, owner, translation);
      RelocateOpenings(walls, geometry, within, before, owner, translation);
      var target := FindWall(within, Xz(translation));
      var cutout := cutouts[owner];
      match target {
        case Some(w) =>
          FirstWithinListed(walls, geometry, within, Xz(translation));
          if cutout.wallEntity == Some(w) {
            UpdateTranslationOf(w, owner, translation);
          } else {
            openings := openings[w := openings[w] + [WallOpening(owner, translation, cutout.positions)]];
            if cutout.wallEntity.Some? {
              RemoveExisting(cutout.wallEntity.value, owner);
            }
            cutouts := cutouts[owner := cutout.(wallEntity := Some(w))];
          }
        case None =>
          if cutout.wallEntity.Some? {
            cutouts := cutouts[owner := cutout.(wallEntity := None)];
            RemoveExisting(cutout.wallEntity.value, owner);
          }
      }
      assert openings == after.openings && cutouts == after.cutouts;
    }

    /**
     * `openings_update_system`: each object whose transform changed, or whose cutout
     * was just added, is moved to the wall it now lies in.
     */
    method OpeningsUpdate(within: Region, changed: seq<(Entity, Vec3)>)
      requires Valid()
      requires forall i :: 0 <= i < |changed| ==> changed[i].0 in cutouts
      modifies this
      ensures Valid()
      ensures walls == old(walls) && geometry == old(geometry)
      ensures Placed() == RelocateAll(walls, geometry, within, old(Placed()), changed)
    {
      var i := 0;
      while i < |changed|
        invariant 0 <= i <= |changed|
        invariant walls == old(walls) && geometry == old(geometry)
        invariant Placed() == RelocateAll(walls, geometry, within, old(Placed()), changed[..i])
        invariant Valid()
      {
        assert changed[..i + 1][..i] == changed[..i];
        UpdateOpening(within, changed[i].0, changed[i].1);
        i := i + 1;
      }
      assert changed[..i] == changed;
    }

    /** One entity of `cutout_cleanup_system`: every wall drops its first opening of `e`. */
    method PurgeFromWalls(e: Entity)
      requires WallsListed(walls, geometry, Placed())
      modifies this
      ensures openings.Keys == old(openings).Keys
      ensures forall v :: v in openings ==> openings[v] == RemoveFirst(old(openings)[v], e)
      ensures walls == old(walls) && geometry == old(geometry) && cutouts == old(cutouts)
    {
      var j := 0;
      while j < |walls|
        invariant 0 <= j <= |walls|
        invariant walls == old(walls) && geometry == old(geometry) && cutouts == old(cutouts)
        invariant openings.Keys == old(openings).Keys
        invariant forall v :: v in openings ==>
          openings[v] == if v in walls[..j] then RemoveFirst(old(openings)[v], e) else old(openings)[v]
      {
        assert walls[j] !in walls[..j];
        assert walls[..j + 1] == walls[..j] + [walls[j]];
        RemoveExisting(walls[j], e);
        j := j + 1;
      }
      assert walls[..j] == walls;
    }

    /**
     * `cutout_cleanup_system`: for each entity whose cutout was removed, every wall
     * drops that entity's opening.
     */
    method CutoutCleanup(removed: seq<Entity>)
      requires Valid()
      requires forall i :: 0 <= i < |removed| ==> removed[i] !in cutouts
      modifies this
      ensures Valid()
      ensures openings.Keys == old(openings).Keys
      ensures forall v :: v in openings ==> openings[v] == RemoveEach(old(openings)[v], removed)
      ensures walls == old(walls) && geometry == old(geometry) && cutouts == old(cutouts)
    {
      ghost var before := Placed();
      var i := 0;
      while i < |removed|
        invariant 0 <= i <= |removed|
        invariant walls == old(walls) && geometry == old(geometry) && cutouts == old(cutouts)
        invariant openings.Keys == old(openings).Keys
        invariant forall v :: v in openings ==> openings[v] == RemoveEach(old(openings)[v], removed[..i])
      {
        assert removed[..i + 1][..i] == removed[..i];
        ghost var mid := openings;
        PurgeFromWalls(removed[i]);
        forall v | v in openings
          ensures openings[v] == RemoveEach(old(openings)[v], removed[..i + 1])
        {
          assert openings[v] == RemoveFirst(mid[v], removed[i]);
        }
        i := i + 1;
      }
      assert removed[..i] == removed;
      CleanupConsistent(walls, geometry, before, Placed(), removed);
    }
  }
}
