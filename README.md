# Lifescape families, wall openings and actors in Dafny

Lifescape is a life-simulation game built on the Bevy ECS and replicated with
bevy_replicon. This project models three parts of it.

- **The family protocol** (`base/src/game_world/family.rs`). A client asks the server to
  create a family by sending a `FamilyCreate` request. The request holds a name, one
  reflected actor bundle per member, and a `select` flag, framed by bincode. The server
  decodes the request through its type registry. It then spawns a `Family` entity
  (with a `Budget` of 20000) and one `Actor` per bundle, in order, as children of the
  target entity. A request with actors whose target no longer exists makes the handler
  panic, and the world is left as it was. The derived
  `FamilyMembers` index lists, for each family, exactly the actors that belong to it.
  Deleting a family despawns it and its members. `select` / `deselect` mark the family
  of the single selected actor.
- **Wall openings** (`src/core/wall/wall_object.rs`). Each wall keeps the list of
  openings (doors, windows) cut into it. Each opening object remembers, in its
  `ObjectCutout`, which wall it sits in. When an object moves, its opening moves to the
  first wall that contains it. When its cutout is removed, the walls forget it.
- **Actor bookkeeping** (`src/core/actor.rs`). Only one actor at a time holds
  `ActiveActor`. The display `Name` is derived from the first and last names. The default
  `Sex` is `Male`. Each animation clip has an asset path.

The modules follow the program's layers:

| file | module | what it holds |
|---|---|---|
| `wire.dfy` | `Wire` | bincode 1.x `DefaultOptions` framing: variable-length integers, `bool`, UTF-8 `String`, runs of values |
| `reflect.dfy` | `Reflect` | reflected payloads, their self-describing encoding, and the registry steps that turn one into an actor bundle |
| `family_codec.dfy` | `FamilyCodec` | `serialize_family_create` / `deserialize_family_create`, and the corrected and as-written decoders |
| `family_world.dfy` | `FamilyWorld` | the server-side world: `create`, `delete`, the member index, `select` / `deselect`, `Budget`, `FamilyMode::glyph` |
| `wall_object.dfy` | `WallObject` | `openings_update_system`, `cutout_cleanup_system`, `ObjectCutout::new` |
| `actor.dfy` | `Actor` | `exclusive_system`, `deactivation_system`, `name_update_system`, `Sex`, `ActorAnimation::asset_path` |

Code that changes the world step by step is modelled by classes whose fields are the
component stores:
- `FamilyWorld.World`: maps from entity to record, plus an outbox and an error log.
- `WallObject.WallWorld`: the wall query order, each wall's geometry and openings, and each object's cutout.
- `Actor.Actors`: the `ActiveActor` set and the name maps.

Each method is proved against a pure specification function, and the promises are
proved about that function. Examples: `Relocate` / `RelocateAll` for the openings
update, `RemoveEach` for the cleanup, `DecodeFamilyCreate` for the decoder. The
invariants are:
- `World.Valid`: the member index agrees with the actors, and entity ids are fresh and distinct.
- `WallWorld.Valid`: every object with a cutout is listed once, by exactly the wall its cutout names.

## Model

| member | source | states |
|---|---|---|
| Wire.DecodeVarint | base/src/game_world/family.rs:148 | reading a `usize` never yields a value of 2^64 or more; an empty buffer is an end-of-buffer error; tags 254 and 255 are an invalid-tag error |
| Wire.VarintRoundTrip | base/src/game_world/family.rs:148 | the actor count written at line 133 reads back as the same number, and the bytes after it are left unread |
| Wire.VarintTruncated | base/src/game_world/family.rs:148 | an actor count cut short gives an end-of-buffer error |
| Wire.DecodeString | base/src/game_world/family.rs:147 | a decoded name is a UTF-8 string of fewer than 2^64 bytes; an empty buffer is an end-of-buffer error |
| Wire.StringRoundTrip | base/src/game_world/family.rs:147 | the family name written at line 132 reads back unchanged, and the bytes after it are left unread |
| Wire.StringTruncated | base/src/game_world/family.rs:147 | a name cut short gives an end-of-buffer error |
| Wire.DecodeBool | base/src/game_world/family.rs:178 | the `select` byte decodes iff it is 0 or 1 (1 is true); any other byte is an invalid-bool error |
| Wire.BoolRoundTrip | base/src/game_world/family.rs:178 | the `select` flag written at line 138 reads back unchanged |
| Wire.ReadMany | base/src/game_world/family.rs:150-177 | the read loop returns exactly what `DecodeMany` specifies: `count` values read back to back, stopping at the first failure |
| Wire.ManyRoundTrip | base/src/game_world/family.rs:150-177 | a run of values written one after another reads back as the same values, and what follows is left |
| Wire.ManyTruncated | base/src/game_world/family.rs:150-177 | a run cut short anywhere gives an end-of-buffer error |
| Wire.ManyStopsAt | base/src/game_world/family.rs:150-177 | the first value that fails to read decides the run's failure |
| Reflect.DecodeDynamic | base/src/game_world/family.rs:151-154 | a generic value that reads is well-formed; this reader only fails with errors, never with a panic |
| Reflect.DynamicRoundTrip | base/src/game_world/family.rs:151-154 | what `ReflectSerializer` wrote at lines 135-136 reads back through `ReflectDeserializer` as the same type path and fields |
| Reflect.DynamicTruncated | base/src/game_world/family.rs:151-154 | a payload cut short gives an end-of-buffer error |
| Reflect.Resolve | base/src/game_world/family.rs:155-175 | a payload is accepted, unchanged, iff every registry step succeeds; the only panic is a registered type without `ReflectFromReflect` |
| Reflect.ResolveFailures | base/src/game_world/family.rs:157-175 | each failure names the step that failed: not registered, no `FromReflect` (a panic), conversion failed, no `ReflectActorBundle`, not an `ActorBundle`; each holds iff the earlier steps succeed and that step fails |
| Reflect.DecodeActor | base/src/game_world/family.rs:151-176 | one loop iteration yields only well-formed payloads that every registry step accepts |
| Reflect.ActorRoundTrip | base/src/game_world/family.rs:151-176 | an acceptable payload written by the client is the actor the loop iteration pushes |
| Reflect.ActorRejected | base/src/game_world/family.rs:151-176 | a payload the registry rejects fails the iteration with the registry step's failure |
| Reflect.ActorTruncated | base/src/game_world/family.rs:151-176 | a payload cut short gives an end-of-buffer error |
| FamilyCodec.EncodeFamilyCreate | base/src/game_world/family.rs:132-138 | the request's bytes are its name's encoding, then the count's, then the payloads', then one byte for `select`: the name comes first and `select` is the last byte (1 iff set) |
| FamilyCodec.SerializeFamilyCreate | base/src/game_world/family.rs:127-141 | the bytes in the cursor are kept, and the name, the actor count, each payload and `select` are appended after them |
| FamilyCodec.DecodeFamilyCreate | base/src/game_world/family.rs:143-184 | a decoded request has a `String` name and a `usize` count of well-formed payloads, all accepted by the registry; the only panic is a missing `ReflectFromReflect` |
| FamilyCodec.DeserializeFamilyCreate | base/src/game_world/family.rs:143-184 | the cursor-based decoder returns exactly `DecodeFamilyCreate` of its input |
| FamilyCodec.FamilyCreateRoundTrip | base/src/game_world/family.rs:143-184 | decoding what `serialize_family_create` wrote gives back the same request, whatever bytes follow |
| FamilyCodec.FamilyCreateTruncated | base/src/game_world/family.rs:143-184 | a request cut short anywhere gives an end-of-buffer error, never a request |
| FamilyCodec.ActorsRoundTrip | base/src/game_world/family.rs:150-177 | the payload loop reads the written payloads back in order |
| FamilyCodec.ActorsTruncated | base/src/game_world/family.rs:150-177 | the payload loop on a cut-short buffer gives an end-of-buffer error |
| FamilyCodec.ActorsFirstRejected | base/src/game_world/family.rs:150-177 | the first payload the registry rejects decides the loop's failure |
| FamilyCodec.FirstRejectedPayloadAbortsRequest | base/src/game_world/family.rs:150-177 | a rejected payload aborts the whole request with that payload's failure: no partial actor list comes back |
| FamilyCodec.UnregisteredPayloadRejected | base/src/game_world/family.rs:157-160 | an actor of a type missing from the registry fails the request with "is not registered" for its type path |
| FamilyCodec.MissingFromReflectPanics | base/src/game_world/family.rs:161-164 | a registered type without `ReflectFromReflect` panics instead of returning an error |
| FamilyCodec.DecodeFamilyCreateAsWritten | base/src/game_world/family.rs:148-149 | given the largest reservation the allocator grants, the decoder as written differs from the corrected one only by a capacity-overflow panic (reservation above `isize::MAX`) or an allocation abort (reservation above that limit) |
| FamilyCodec.BareCountTruncated | base/src/game_world/family.rs:147-150 | the corrected decoder reports an empty name followed by a positive count and nothing else as a truncated buffer |
| FamilyCodec.DeclaredCountPanicsAsWritten | base/src/game_world/family.rs:148-149 | whatever the allocator grants, a declared count whose 16-byte boxes overflow `isize::MAX` panics the decoder as written before any payload is read; the corrected decoder reports the truncated buffer |
| FamilyCodec.DeclaredCountAbortsAsWritten | base/src/game_world/family.rs:148-149 | a declared count whose reservation fits `isize::MAX` but exceeds what the allocator grants aborts the decoder as written; the corrected decoder reports the truncated buffer |
| FamilyCodec.AsWrittenAgreesWithinLimit | base/src/game_world/family.rs:143-184 | a request whose actors' reservation the allocator grants decodes under the decoder as written to the request the client serialized |
| FamilyCodec.OversizedCountPanicsAsWritten | base/src/game_world/family.rs:148-149 | a ten-byte request that declares 2^59 actors panics the decoder as written, whatever the allocator grants; the corrected decoder reports the truncated buffer |
| FamilyWorld.Spawned | base/src/game_world/family.rs:74-79 | `create` gives actor ids exactly `f+1 .. f+n`, and the i-th of them carries the family, the parent and the i-th payload |
| FamilyWorld.MembersExactly | base/src/game_world/family.rs:224-228 | under the index invariant, a family's `FamilyMembers` lists exactly the actors whose `family_entity` is that family |
| FamilyWorld.IndexedAddFamily | base/src/game_world/family.rs:205-212 | a new `Family` starts with an empty `FamilyMembers`, and the index invariant holds |
| FamilyWorld.IndexedAddMember | base/src/game_world/family.rs:54-66 | adding an actor and appending it to its family's list keeps the index invariant |
| FamilyWorld.IndexedRemoveFamily | base/src/game_world/family.rs:104-107 | despawning a family and exactly its listed members keeps the index invariant |
| FamilyWorld.World.UpdateMembers | base/src/game_world/family.rs:63-66 | the family's `FamilyMembers` gets the member appended at the end; nothing else changes |
| FamilyWorld.World.RecordNewMembers | base/src/game_world/family.rs:54-61 | a new actor is appended to the list of the family its `Actor` names; nothing else changes |
| FamilyWorld.World.SpawnFamily | base/src/game_world/family.rs:205-222 | spawns a fresh `Family` with the given name, `Budget` 20000 and an empty `FamilyMembers`, keeping the world valid |
| FamilyWorld.World.SpawnActor | base/src/game_world/family.rs:74-79 | spawns a fresh actor with the family, parent and payload, and appends it to the family's list, keeping the world valid |
| FamilyWorld.World.SpawnActors | base/src/game_world/family.rs:74-80 | one actor per payload, in order, with consecutive fresh ids; the family lists exactly them |
| FamilyWorld.World.Create | base/src/game_world/family.rs:68-90 | the handler panics, changing nothing, iff the request has actors and the target no longer exists; otherwise a fresh family with the request's name and default budget, one new actor per payload under the target, the family listing exactly those actors in order, and `SelectedFamilyCreated` sent to the requesting client alone iff `select`; the world stays valid; nothing else changes |
| FamilyWorld.SpawnedInOrder | base/src/game_world/family.rs:74-80 | after `create`, the i-th listed member carries the i-th payload, and the existing actors keep their records |
| FamilyWorld.World.Delete | base/src/game_world/family.rs:92-111 | a target with `FamilyMembers` is despawned together with exactly its members (and their selection markers); any other target only adds an error line; the world stays valid |
| FamilyWorld.World.Despawn | base/src/game_world/family.rs:104-106 | the entity loses every component it had; nothing else changes |
| FamilyWorld.DeleteUndoesCreate | base/src/game_world/family.rs:68-111 | deleting a family right after creating it gives back the families, member lists and actors that were there before |
| FamilyWorld.World.Select | base/src/game_world/family.rs:113-118 | with exactly one selected actor, its family gains `SelectedFamily`; otherwise nothing changes |
| FamilyWorld.World.Deselect | base/src/game_world/family.rs:120-125 | with exactly one selected actor, its family loses `SelectedFamily`; otherwise nothing changes |
| FamilyWorld.DEFAULT_BUDGET | base/src/game_world/family.rs:218-222 | a new family's `Budget` is 20000 |
| FamilyWorld.Glyph | base/src/game_world/family.rs:194-201 | each mode's glyph is a single character (👪 for `Life`, 🏠 for `Building`) |
| FamilyWorld.GlyphsDistinct | base/src/game_world/family.rs:194-201 | two modes have the same glyph iff they are the same mode |
| WallObject.NewCutout | src/core/wall/wall_object.rs:218-224 | the cutout's positions are the given vertices, converted in order; it names no wall |
| WallObject.NewCutoutConsistent | src/core/wall/wall_object.rs:218-224 | giving a fresh cutout to an object that no wall lists keeps the placement invariant |
| WallObject.IndexOf | src/core/wall/wall_object.rs:162-164 | the result is the first index of an opening of the object, or none iff the list has no such opening |
| WallObject.WallWorld.Position | src/core/wall/wall_object.rs:162-164 | the scanning loop returns exactly `IndexOf` |
| WallObject.FirstWithin | src/core/wall/wall_object.rs:81-83 | the result is the first wall, in query order, that contains the point; none iff no wall does |
| WallObject.TargetWall | src/core/wall/wall_object.rs:81-83 | the wall found is a listed wall that contains the point; none is found iff no listed wall contains it |
| WallObject.WallWorld.FindWall | src/core/wall/wall_object.rs:81-83 | the search over the wall query returns the wall `TargetWall` names |
| WallObject.RemoveFirst | src/core/wall/wall_object.rs:95-97 | a list without an opening of the object is returned unchanged; otherwise exactly one opening is dropped |
| WallObject.WallWorld.RemoveExisting | src/core/wall/wall_object.rs:95-97 | the wall drops the object's first opening; nothing else changes |
| WallObject.RemoveFirstCount | src/core/wall/wall_object.rs:95-97 | removing lowers the object's count by one if it had one, and leaves every other object's count |
| WallObject.RemoveFirstIsWithout | src/core/wall/wall_object.rs:95-97 | on a list holding the object at most once, the removal keeps all other openings in order |
| WallObject.UpdateTranslation | src/core/wall/wall_object.rs:87 | the list keeps its length, and every opening its object and vertices; a list without an opening of the object is unchanged |
| WallObject.WallWorld.UpdateTranslationOf | src/core/wall/wall_object.rs:87 | the wall's list becomes `UpdateTranslation` of it; nothing else changes |
| WallObject.UpdateTranslationKeeps | src/core/wall/wall_object.rs:87 | updating a translation keeps every object's count and every other opening |
| WallObject.UpdateTranslationSets | src/core/wall/wall_object.rs:87 | after the update, the object's opening carries the new translation |
| WallObject.Relocate | src/core/wall/wall_object.rs:80-114 | one pass of the loop body for one object keeps the set of walls with openings and the set of objects with cutouts |
| WallObject.RelocateSameWall | src/core/wall/wall_object.rs:85-87 | an object that stays in its wall keeps the placement invariant |
| WallObject.RelocateNewWall | src/core/wall/wall_object.rs:88-109 | an object that enters a wall, from no wall or from another one, keeps the placement invariant |
| WallObject.EnterWall | src/core/wall/wall_object.rs:101-109 | pushing the opening onto a wall for an object in no wall keeps the invariant |
| WallObject.MoveWall | src/core/wall/wall_object.rs:88-100 | pushing onto the new wall and removing from the old one keeps the invariant |
| WallObject.RelocateNoWall | src/core/wall/wall_object.rs:110-114 | an object in no wall leaves its previous wall, its `wall_entity` is cleared, and the invariant holds |
| WallObject.RelocatePlaces | src/core/wall/wall_object.rs:79-114 | one pass keeps the placement invariant; the object's `wall_entity` becomes the first wall containing it (or none); its vertices and every other cutout are kept |
| WallObject.RelocateKeepsOthers | src/core/wall/wall_object.rs:85-113 | every wall keeps the other objects' openings in order; only the walls the object leaves or enters change |
| WallObject.RelocateSetsTranslation | src/core/wall/wall_object.rs:85-108 | in the wall it lands in, an opening of the object carries the new translation (and, by `RelocatePlaces`, it is the object's only opening there) |
| WallObject.RelocateAll | src/core/wall/wall_object.rs:79-115 | handling the changed objects one after another keeps the placement invariant and the sets of walls and cutouts |
| WallObject.WallWorld.UpdateOpening | src/core/wall/wall_object.rs:80-114 | the loop body for one object turns the placement into `Relocate` of it, keeping the invariant and the walls |
| WallObject.WallWorld.OpeningsUpdate | src/core/wall/wall_object.rs:72-116 | the system turns the placement into `RelocateAll` over the changed objects, keeping the invariant |
| WallObject.RemoveEachPurges | src/core/wall/wall_object.rs:160-168 | on a wall listing each object at most once, the cleanup leaves exactly the openings of objects not removed, in order |
| WallObject.RemoveEachCount | src/core/wall/wall_object.rs:160-168 | the cleanup never adds an opening, and it leaves the objects not removed alone |
| WallObject.CleanupConsistent | src/core/wall/wall_object.rs:156-170 | removing the openings of objects without a cutout keeps the placement invariant |
| WallObject.WallWorld.PurgeFromWalls | src/core/wall/wall_object.rs:161-168 | every wall drops its first opening of the entity; the set of walls and the cutouts are unchanged |
| WallObject.WallWorld.CutoutCleanup | src/core/wall/wall_object.rs:156-170 | each wall's list becomes `RemoveEach` of it over the removed entities; the invariant holds and nothing else changes |
| Actor.DefaultSex | src/core/actor.rs:159-167 | the default `Sex` is `Male`, not `Female` |
| Actor.FullName | src/core/actor.rs:125 | the name is the first name, one space, then the last name |
| Actor.NameRoundTrip | src/core/actor.rs:125 | splitting a name at its first space gives back a first name without spaces and the last name |
| Actor.FullNameInjective | src/core/actor.rs:125 | for first names without spaces, two actors get the same `Name` iff their first and last names agree |
| Actor.Actors.Rename | src/core/actor.rs:124-128 | the entity's `Name` becomes its full name; it is kept out of replication iff both names were just added |
| Actor.Actors.NameUpdateSystem | src/core/actor.rs:116-130 | every changed entity gets `Name` = first, space, last; other entities' names are kept; exactly the changed entities whose names were both just added join the unreplicated set |
| Actor.Actors.DeactivationSystem | src/core/actor.rs:132-136 | a sole `ActiveActor` loses it; with none or several holders nothing changes |
| Actor.Actors.ExclusiveSystem | src/core/actor.rs:138-148 | when any actor was activated this tick, the last one activated is the only active actor; otherwise nothing changes |
| Actor.AssetPath | src/core/actor.rs:198-210 | every clip's path is the animations directory, the clip's file name, then `.gltf#Animation0` |
| Actor.AssetPathsDistinct | src/core/actor.rs:198-210 | two animations have the same asset path iff they are the same animation |

## Left out

- Bevy reflection is modelled by a self-describing payload: a type path and field values. The registry is a map from type path to what it records. Bevy's own serializer layout and its registry-driven deserializer are not reproduced.
- FamilyCodec.UnregisteredPayloadRejected: the real `ReflectDeserializer` (base/src/game_world/family.rs:154) already fails on a type path the registry does not know, before the "is not registered" exit of lines 157-160 is reached. In the model the stand-in reader accepts any type path, so that exit is where an unregistered payload is rejected; the error text differs from the program's.
- FamilyCodec.SerializeFamilyCreate: models the `Ok` outcome only. The `?` at base/src/game_world/family.rs:136 passes up any error of `ReflectSerializer` (a value it cannot serialize), and the bytes already appended stay in the cursor. Payloads in the model are always serializable.
- Wire.DecodeString: bincode 1.3 reads a `String` from a reader by first resizing a buffer to the declared length, zero-filled, and only then reading. A declared length that cannot be allocated therefore aborts or panics rather than giving the end-of-buffer error the model returns. `Wire.StringTruncated`, `FamilyCodec.FamilyCreateTruncated` and the type-path strings inside payloads are affected the same way, and the corrected decoder keeps this behaviour. bincode's source is not part of this model.
- Bincode's other integer widths (u128 tags) and options are left out; only what `DefaultOptions` does for `usize`, `bool` and `String` is modelled.
- The replicon transport, channels, and what the server does with a request that fails to decode are left out. The decoder and `create` are not composed into one "receive" step.
- Deferred ECS commands and observer scheduling are collapsed: each spawn, and the member-index observer it fires, runs as one step in source order.
- The `info!` log lines are left out; the `error!` line of `delete` is the `log` field.
- `unwrap()` calls whose failure would be a panic (`record_new_members`, `update_members`) are preconditions of the modelled methods.
- `despawn_recursive`: the descendants of an actor entity are not entities of this model.
- `within_wall` and all f32 geometry are a parameter `within`; positions are reals, without f32 rounding. `wall_snapping_system` and `closest_point` are not part of this model.
- `src/core/wall.rs` is not part of this model. `WallOpenings::remove_existing` is modelled as removing the object's first opening, doing nothing when there is none. `update_translation` is modelled as updating the first one. Under the placement invariant, an opening of the object is always there when either is called.
- Scene setup, meshes and the `ObjectCutout` spawn path (`scene_init`) are left out.
- The `Actor` component differs between the two files. `family.rs` uses `Actor { family_entity }`; `actor.rs` declares a unit `Actor`. The two files are modelled separately, each on its own terms.
- `FamilyMode`'s default (`Life`) only chooses which sub-state is entered first; state scheduling is not modelled.
- Actor.NameRoundTrip: holds for first names without a space; a first name containing a space makes the `Name` ambiguous, and the source does not prevent one.
- Asset loading (`AssetCollection`), UI, outlines and animation playback are left out.

## Findings

| source | as written | input that shows it | evidently intended | confidence | as-written member | corrected member |
|---|---|---|---|---|---|---|
| base/src/game_world/family.rs:149 | `Vec::with_capacity(actors_count)` allocates for the count the client declared, before any payload is read | the ten bytes `[0, 253, 0, 0, 0, 0, 0, 0, 0, 8]`: an empty name, then a count of 2^59; 2^59 boxed bundles of 16 bytes exceed `isize::MAX`, so the server panics with "capacity overflow" | a request whose payloads are not there is rejected as a truncated buffer, like any other malformed request | not executed | FamilyCodec.OversizedCountPanicsAsWritten | FamilyCodec.BareCountTruncated |
| base/src/game_world/family.rs:149 | the same reservation, for a count that fits `isize::MAX` but not the memory the allocator grants | the ten bytes `[0, 253, 0, 0, 0, 0, 0, 1, 0, 0]`: an empty name, then a count of 2^40, a 16 TiB reservation; where the allocator refuses it, `handle_alloc_error` aborts the server | as above: a truncated buffer | not executed | FamilyCodec.DeclaredCountAbortsAsWritten | FamilyCodec.BareCountTruncated |
