/**
 * Actor bookkeeping: which actor is locally controlled (`ActiveActor`), the display
 * `Name` derived from first and last name, the default `Sex`, and where each
 * animation clip is loaded from.
 */
module Actor {
  import opened Optional

  type Entity = nat

  /** `Sex`; the derived default is `Male`. */
  datatype Sex = Male | Female

  /** `Sex::default()`. */
  function DefaultSex(): (s: Sex)
    ensures s.Male?
  {
    Male
  }

  /** `format!("{} {}", first, last)`: the `Name` shown for an actor. */
  function FullName(first: string, last: string): (name: string)
    ensures |name| == |first| + 1 + |last|
    ensures name[..|first|] == first && name[|first|] == ' ' && name[|first| + 1..] == last
  {
    first + " " + last
  }

  /** The index of the first space in `s`, if any. */
  function FirstSpace(s: string): (r: Option<nat>)
    ensures r.Some? ==> r.value < |s| && s[r.value] == ' ' && forall j :: 0 <= j < r.value ==> s[j] != ' '
    ensures r.None? ==> forall j :: 0 <= j < |s| ==> s[j] != ' '
  {
    if s == [] then None
    else if s[0] == ' ' then Some(0)
    else match FirstSpace(s[1..])
      case None => None
      case Some(k) => Some(k + 1)
  }

  /** Splits a display name at its first space back into first and last name. */
  function SplitName(name: string): Option<(string, string)>
  {
    match FirstSpace(name)
    case None => None
    case Some(k) => Some((name[..k], name[k + 1..]))
  }

  /**
   * A first name without a space is recovered, together with the last name, from the
   * `Name` it produces: the composed name loses nothing.
   */
  lemma NameRoundTrip(first: string, last: string)
    requires forall j :: 0 <= j < |first| ==> first[j] != ' '
    ensures SplitName(FullName(first, last)) == Some((first, last))
  {
  }

  /** Distinct first names (without spaces) give distinct display names. */
  lemma FullNameInjective(first1: string, last1: string, first2: string, last2: string)
    requires forall j :: 0 <= j < |first1| ==> first1[j] != ' '
    requires forall j :: 0 <= j < |first2| ==> first2[j] != ' '
    ensures FullName(first1, last1) == FullName(first2, last2) <==> first1 == first2 && last1 == last2
  {
    NameRoundTrip(first1, last1);
    NameRoundTrip(first2, last2);
  }

  /** `ActorAnimation`: the animation clips of an actor. */
  datatype ActorAnimation = Idle | MaleWalk | FemaleWalk | MaleRun | FemaleRun | TellSecret | ThoughtfulNod

  const ANIMATIONS_DIR: string := "base/actors/animations/"
  const CLIP_SUFFIX: string := ".gltf#Animation0"

  /** The file name of each clip inside the animations directory. */
  function ClipName(a: ActorAnimation): string
  {
    match a
    case Idle => "idle"
    case MaleWalk => "male_walk"
    case FemaleWalk => "female_walk"
    case MaleRun => "male_run"
    case FemaleRun => "female_run"
    case TellSecret => "tell_secret"
    case ThoughtfulNod => "thoughtful_nod"
  }

  /** `ActorAnimation::asset_path`: the first animation of the clip's glTF file. */
  function AssetPath(a: ActorAnimation): (path: string)
    ensures |path| == |ANIMATIONS_DIR| + |ClipName(a)| + |CLIP_SUFFIX|
    ensures path[..|ANIMATIONS_DIR|] == ANIMATIONS_DIR
    ensures path[|ANIMATIONS_DIR|..|path| - |CLIP_SUFFIX|] == ClipName(a)
    ensures path[|path| - |CLIP_SUFFIX|..] == CLIP_SUFFIX
  {
    ANIMATIONS_DIR + ClipName(a) + CLIP_SUFFIX
  }

  /** No two clips share a file name. */
  lemma ClipNamesDistinct(a: ActorAnimation, b: ActorAnimation)
    requires a != b
    ensures ClipName(a) != ClipName(b)
  {
    if |ClipName(a)| == |ClipName(b)| {
      assert ClipName(a)[0] != ClipName(b)[0];
    }
  }

  /** Each clip is loaded from its own path, and the path gives the clip back. */
  lemma AssetPathsDistinct(a: ActorAnimation, b: ActorAnimation)
    ensures AssetPath(a) == AssetPath(b) <==> a == b
  {
    var n, m := |ANIMATIONS_DIR|, |CLIP_SUFFIX|;
    assert ClipName(a) == AssetPath(a)[n..|AssetPath(a)| - m];
    assert ClipName(b) == AssetPath(b)[n..|AssetPath(b)| - m];
    if a != b {
      ClipNamesDistinct(a, b);
    }
  }

  /** The actors' control and name components. */
  class Actors {
    /** Entities with `ActiveActor`. */
    var active: set<Entity>
    /** `FirstName` of each entity that has one. */
    var firstNames: map<Entity, string>
    /** `LastName` of each entity that has one. */
    var lastNames: map<Entity, string>
    /** `Name` of each entity that has one. */
    var names: map<Entity, string>
    /** Entities whose `Name` is kept out of replication. */
    var unreplicated: set<Entity>

    /**
     * `exclusive_system`: `activated` lists, in query order, the actors that gained
     * `ActiveActor` this tick. If there is any, every other holder loses it, so the
     * last one activated is the only active actor.
     */
    method ExclusiveSystem(activated: seq<Entity>)
      requires forall i :: 0 <= i < |activated| ==> activated[i] in active
      modifies this
      ensures |activated| > 0 ==> active == {activated[|activated| - 1]}
      ensures |activated| == 0 ==> active == old(active)
      ensures firstNames == old(firstNames) && lastNames == old(lastNames)
      ensures names == old(names) && unreplicated == old(unreplicated)
    {
      if |activated| == 0 {
        return;
      }
      var kept := activated[|activated| - 1];
      var holders := active;
      while holders != {}
        invariant holders <= active <= old(active)
        invariant kept in active
        invariant forall e :: e in active && e != kept ==> e in holders
        invariant firstNames == old(firstNames) && lastNames == old(lastNames)
        invariant names == old(names) && unreplicated == old(unreplicated)
        decreases |holders|
      {
        var holder :| holder in holders;
        if holder != kept {
          active := active - {holder};
        }
        holders := holders - {holder};
      }
    }

    /**
     * `deactivation_system`, run on leaving family mode: when exactly one entity holds
     * `ActiveActor`, it loses it; with none or several, nothing changes.
     */
    method DeactivationSystem()
      modifies this
      ensures |old(active)| == 1 ==> active == {}
      ensures |old(active)| != 1 ==> active == old(active)
      ensures firstNames == old(firstNames) && lastNames == old(lastNames)
      ensures names == old(names) && unreplicated == old(unreplicated)
    {
      if |active| == 1 {
        var holder :| holder in active;
        active := active - {holder};
        assert |active| == 0;
      }
    }

    /**
     * `name_update_system`: every entity in `changed` (its first or last name changed
     * this tick) gets `Name` = first, space, last; when both components were added this
     * tick, the `Name` is not replicated.
     */
    method NameUpdateSystem(changed: seq<Entity>, firstAdded: set<Entity>, lastAdded: set<Entity>)
      requires forall e :: e in changed ==> e in firstNames && e in lastNames
      modifies this
      ensures active == old(active) && firstNames == old(firstNames) && lastNames == old(lastNames)
      ensures forall e :: e in changed ==> e in names && names[e] == FullName(firstNames[e], lastNames[e])
      ensures forall e :: e !in changed ==> (e in names <==> e in old(names)) && (e in names ==> names[e] == old(names)[e])
      ensures forall e :: e in unreplicated <==> e in old(unreplicated) || (e in changed && e in firstAdded && e in lastAdded)
    {
      var i := 0;
      while i < |changed|
        invariant 0 <= i <= |changed|
        invariant active == old(active) && firstNames == old(firstNames) && lastNames == old(lastNames)
        invariant forall e :: e in changed[..i] ==> e in names && names[e] == FullName(firstNames[e], lastNames[e])
        invariant forall e :: e !in changed[..i] ==> (e in names <==> e in old(names)) && (e in names ==> names[e] == old(names)[e])
        invariant forall e :: e in unreplicated <==> e in old(unreplicated) || (e in changed[..i] && e in firstAdded && e in lastAdded)
      {
        var e := changed[i];
        assert changed[..i + 1] == changed[..i] + [e];
        Rename(e, e in firstAdded && e in lastAdded);
        i := i + 1;
      }
      assert changed[..i] == changed;
    }

    /** One entity's `Name` is rebuilt, and hidden from replication when `concealed` holds. */
    method Rename(e: Entity, concealed: bool)
      requires e in firstNames && e in lastNames
      modifies this
      ensures concealed ==> unreplicated == old(unreplicated) + {e}
      ensures !concealed ==> unreplicated == old(unreplicated)
      ensures active == old(active) && firstNames == old(firstNames) && lastNames == old(lastNames)
      ensures names == old(names)[e := FullName(firstNames[e], lastNames[e])]
    {
      names := names[e := FullName(firstNames[e], lastNames[e])];
      if concealed {
        unreplicated := unreplicated + {e};
      }
    }
  }
}
