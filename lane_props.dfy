/** The lane-prop manager: the table of speed-limit sign props, filled by name
    from the game's props, and the replacement of a lane's speed-limit sign by
    the sign for the lane direction's current speed. */
module LaneProps {
  import opened Net
  import opened Wrappers

  /** A prop prefab: an identity (distinct prefabs may share a name) and its name. */
  datatype Prefab = Prefab(id: nat, name: string)

  /** A prop placed along a lane: its rotation angle and the prop it renders
      (which may be missing). */
  datatype LaneProp = LaneProp(angle: real, finalProp: Option<Prefab>)

  /** The key of the fallback (vanilla) prop collection. */
  const FallbackCollection: string := "fallback"

  /** The fallback sign props: a speed key in km/h to the name the sign's
      prop carries. */
  const FallbackSpeedLimitSignProps: map<string, string> :=
    map["30" := "30 speed limit", "40" := "40 speed limit", "50" := "50 speed limit",
        "60" := "60 speed limit", "100" := "100 speed limit"]

  /** The name part that marks a prop as a speed-limit sign. */
  const SpeedLimitMarker: string := "speed limit"

  // ---------------------------------------------------------------------
  // Names
  // ---------------------------------------------------------------------

  /** One character in lower case (letters A to Z only). */
  function LowerChar(c: char): (r: char)
    ensures 'A' <= c <= 'Z' ==> r as int == c as int + 32
    ensures !('A' <= c <= 'Z') ==> r == c
  {
    if 'A' <= c <= 'Z' then (c as int + 32) as char else c
  }

  /** The name in lower case, character by character. */
  function Lower(s: string): (r: string)
    ensures |r| == |s|
  {
    if s == [] then [] else [LowerChar(s[0])] + Lower(s[1..])
  }

  /** Every character is lowered in place. */
  lemma {:induction false} LowerEach(s: string)
    ensures forall i :: 0 <= i < |s| ==> Lower(s)[i] == LowerChar(s[i])
  {
    if s != [] {
      LowerEach(s[1..]);
      assert forall i :: 1 <= i < |s| ==> Lower(s)[i] == Lower(s[1..])[i - 1];
    }
  }

  /** String.Contains, scanning from the front. */
  function Contains(s: string, t: string): bool
    decreases |s|
  {
    |t| <= |s| && (s[..|t|] == t || (s != [] && Contains(s[1..], t)))
  }

  /** `t` occurs in `s` at index `i`. */
  predicate OccursAt(s: string, t: string, i: nat)
  {
    i + |t| <= |s| && s[i..i + |t|] == t
  }

  /** An occurrence in the tail is an occurrence one index further on. */
  lemma OccursInTail(s: string, t: string, i: nat)
    requires s != []
    ensures OccursAt(s[1..], t, i) <==> OccursAt(s, t, i + 1)
  {
    if i + 1 + |t| <= |s| {
      assert s[1..][i..i + |t|] == s[i + 1..i + 1 + |t|];
    }
  }

  /** `t` occurs in `s` exactly when some slice of `s` equals it. */
  lemma {:induction false} ContainsMeaning(s: string, t: string)
    ensures Contains(s, t) <==> exists i: nat :: OccursAt(s, t, i)
    decreases |s|
  {
    assert OccursAt(s, t, 0) <==> |t| <= |s| && s[..|t|] == t;
    if |t| <= |s| && s != [] {
      ContainsMeaning(s[1..], t);
      if Contains(s[1..], t) {
        var i: nat :| OccursAt(s[1..], t, i);
        OccursInTail(s, t, i);
      }
      if exists i: nat :: OccursAt(s, t, i) {
        var i: nat :| OccursAt(s, t, i);
        if i > 0 {
          OccursInTail(s, t, i - 1);
        }
      }
    }
  }

  /** Whether the prefab's lower-cased name contains the given name. */
  predicate Matches(p: Prefab, value: string)
  {
    Contains(Lower(p.name), value)
  }

  // ---------------------------------------------------------------------
  // Loading
  // ---------------------------------------------------------------------

  /** The index of the last of the first `n` prefabs whose lower-cased name
      contains `value`. */
  function LastMatchBefore(prefabs: seq<Prefab>, value: string, n: nat): (r: Option<nat>)
    requires n <= |prefabs|
    ensures r.Some? ==> r.value < n && Matches(prefabs[r.value], value)
    ensures r.Some? ==> forall j :: r.value < j < n ==> !Matches(prefabs[j], value)
    ensures r.None? ==> forall j :: 0 <= j < n ==> !Matches(prefabs[j], value)
  {
    if n == 0 then None
    else if Matches(prefabs[n - 1], value) then Some(n - 1)
    else LastMatchBefore(prefabs, value, n - 1)
  }

  /** The last prefab in list order whose lower-cased name contains `value`. */
  function LastMatch(prefabs: seq<Prefab>, value: string): Option<Prefab>
  {
    match LastMatchBefore(prefabs, value, |prefabs|)
    case None => None
    case Some(i) => Some(prefabs[i])
  }

  /** The match found is a matching prefab of the list after which no prefab
      matches; there is none exactly when no prefab matches. */
  lemma LastMatchIsLast(prefabs: seq<Prefab>, value: string)
    ensures LastMatch(prefabs, value).Some? ==>
      exists i :: 0 <= i < |prefabs| && prefabs[i] == LastMatch(prefabs, value).value
                  && Matches(prefabs[i], value)
                  && forall j :: i < j < |prefabs| ==> !Matches(prefabs[j], value)
    ensures LastMatch(prefabs, value).None? <==> forall j :: 0 <= j < |prefabs| ==> !Matches(prefabs[j], value)
  {
    var r := LastMatchBefore(prefabs, value, |prefabs|);
    if r.None? {
      assert LastMatch(prefabs, value).None?;
    } else {
      assert !Matches(prefabs[r.value], value) ==> false;
    }
  }

  /** The collection LoadProps builds: each key to the last prefab matching its
      name; keys without a match are absent. */
  function LoadedCollection(propNames: map<string, string>, prefabs: seq<Prefab>): map<string, Prefab>
  {
    LoadedFor(propNames, propNames.Keys, prefabs)
  }

  /** The part of the collection for the given keys. */
  function LoadedFor(propNames: map<string, string>, keys: set<string>, prefabs: seq<Prefab>): map<string, Prefab>
  {
    map k | k in keys && k in propNames && LastMatch(prefabs, propNames[k]).Some? :: LastMatch(prefabs, propNames[k]).value
  }

  /** A loaded key has a name, and its prop is a matching prefab of the list. */
  lemma LoadedCollectionMeaning(propNames: map<string, string>, prefabs: seq<Prefab>, k: string)
    ensures k in LoadedCollection(propNames, prefabs) ==>
              k in propNames && LoadedCollection(propNames, prefabs)[k] in prefabs
              && Matches(LoadedCollection(propNames, prefabs)[k], propNames[k])
    ensures k in propNames && k !in LoadedCollection(propNames, prefabs) ==>
              forall i :: 0 <= i < |prefabs| ==> !Matches(prefabs[i], propNames[k])
  {
    if k in propNames {
      LastMatchIsLast(prefabs, propNames[k]);
    }
  }

  /** The manager: every loaded prop collection by its key. */
  class LanePropManager {
    var speedLimitProps: map<string, map<string, Prefab>>

    constructor()
      ensures speedLimitProps == map[]
    {
      speedLimitProps := map[];
    }

    /** LoadProps: builds the collection of `propNames` from the prefabs and adds
        it under its key, which must not be taken yet. */
    method LoadProps(propNames: map<string, string>, propCollectionKeyName: string, propInfos: seq<Prefab>)
      requires propCollectionKeyName !in speedLimitProps
      modifies this
      ensures speedLimitProps == old(speedLimitProps)[propCollectionKeyName := LoadedCollection(propNames, propInfos)]
    {
      var propCollectionToAdd: map<string, Prefab> := map[];
      var remaining := propNames.Keys;
      ghost var done: set<string> := {};
      while remaining != {}
        invariant done <= propNames.Keys && remaining == propNames.Keys - done
        invariant speedLimitProps == old(speedLimitProps)
        invariant propCollectionToAdd == LoadedFor(propNames, done, propInfos)
        decreases |remaining|
      {
        var key :| key in remaining;
        propCollectionToAdd := LoadEntry(propCollectionToAdd, key, propNames[key], propInfos);
        LoadedOneMore(propNames, done, key, propInfos);
        remaining := remaining - {key};
        done := done + {key};
      }
      assert done == propNames.Keys;
      speedLimitProps := speedLimitProps[propCollectionKeyName := propCollectionToAdd];
    }

    /** OnAfterLoadData: the fallback collection is loaded from the game's props. */
    method OnAfterLoadData(allPropInfos: seq<Prefab>)
      requires FallbackCollection !in speedLimitProps
      modifies this
      ensures speedLimitProps == old(speedLimitProps)[FallbackCollection :=
                LoadedCollection(FallbackSpeedLimitSignProps, allPropInfos)]
    {
      LoadProps(FallbackSpeedLimitSignProps, FallbackCollection, allPropInfos);
    }
  }

  /** The inner loop of LoadProps: every matching prefab in turn overwrites the
      key's entry, so the last match stays. */
  method LoadEntry(collection: map<string, Prefab>, key: string, value: string, propInfos: seq<Prefab>)
    returns (r: map<string, Prefab>)
    ensures LastMatch(propInfos, value).Some? ==> r == collection[key := LastMatch(propInfos, value).value]
    ensures LastMatch(propInfos, value).None? ==> r == collection
  {
    r := collection;
    for j := 0 to |propInfos|
      invariant LastMatchBefore(propInfos, value, j).Some? ==>
                  r == collection[key := propInfos[LastMatchBefore(propInfos, value, j).value]]
      invariant LastMatchBefore(propInfos, value, j).None? ==> r == collection
    {
      if Matches(propInfos[j], value) {
        r := collection[key := propInfos[j]];
      }
    }
  }

  /** Loading one more key of the names. */
  lemma LoadedOneMore(propNames: map<string, string>, done: set<string>, key: string, prefabs: seq<Prefab>)
    requires key in propNames && key !in done
    ensures var before := LoadedFor(propNames, done, prefabs);
      var after := LoadedFor(propNames, done + {key}, prefabs);
      && (LastMatch(prefabs, propNames[key]).Some? ==> after == before[key := LastMatch(prefabs, propNames[key]).value])
      && (LastMatch(prefabs, propNames[key]).None? ==> after == before)
  {
    var before := LoadedFor(propNames, done, prefabs);
    var after := LoadedFor(propNames, done + {key}, prefabs);
    if LastMatch(prefabs, propNames[key]).Some? {
      assert after.Keys == before.Keys + {key};
    } else {
      assert after.Keys == before.Keys;
    }
  }

  // ---------------------------------------------------------------------
  // Replacement
  // ---------------------------------------------------------------------

  /** A prop at angle 0 faces the lane's forward direction; any other angle the
      backward one. */
  function PropDirection(angle: real): (d: Direction)
    ensures angle == 0.0 <==> d == Forward
    ensures angle != 0.0 <==> d == Backward
  {
    if angle == 0.0 then Forward else Backward
  }

  /** The prop renders a speed-limit sign, judged by its lower-cased name. */
  predicate IsSpeedLimitSign(prop: LaneProp)
  {
    prop.finalProp.Some? && Contains(Lower(prop.finalProp.value.name), SpeedLimitMarker)
  }

  /** ReplaceProp: a speed-limit sign is replaced by the fallback sign for the
      speed key of its direction when the fallback collection has that key;
      every other prop is rendered as it is. The key of a direction, the
      segment's speed in km/h as text, is a parameter. */
  function ReplaceProp(prop: LaneProp, speedSignKey: Direction -> string,
                       speedLimitProps: map<string, map<string, Prefab>>): (r: Option<Prefab>)
    requires IsSpeedLimitSign(prop) ==> FallbackCollection in speedLimitProps
    ensures var key := speedSignKey(PropDirection(prop.angle));
      var replaced := IsSpeedLimitSign(prop) && key in speedLimitProps[FallbackCollection];
      && (replaced ==> r == Some(speedLimitProps[FallbackCollection][key]))
      && (!replaced ==> r == prop.finalProp)
  {
    var direction := PropDirection(prop.angle);
    var key := speedSignKey(direction);
    if prop.finalProp.Some? && Contains(Lower(prop.finalProp.value.name), SpeedLimitMarker)
       && key in speedLimitProps[FallbackCollection] then
      Some(speedLimitProps[FallbackCollection][key])
    else prop.finalProp
  }

  /** With the fallback collection loaded from the fallback table, a sign is
      only ever replaced for one of the keys 30, 40, 50, 60 and 100, and by a
      prefab named for that speed. */
  lemma OnlyFallbackKeysReplaced(prop: LaneProp, speedSignKey: Direction -> string,
                                 speedLimitProps: map<string, map<string, Prefab>>, prefabs: seq<Prefab>)
    requires speedLimitProps == map[FallbackCollection := LoadedCollection(FallbackSpeedLimitSignProps, prefabs)]
    ensures var key := speedSignKey(PropDirection(prop.angle));
      ReplaceProp(prop, speedSignKey, speedLimitProps) != prop.finalProp ==>
        && key in {"30", "40", "50", "60", "100"}
        && ReplaceProp(prop, speedSignKey, speedLimitProps).Some?
        && Matches(ReplaceProp(prop, speedSignKey, speedLimitProps).value, FallbackSpeedLimitSignProps[key])
        && ReplaceProp(prop, speedSignKey, speedLimitProps).value in prefabs
  {
    var key := speedSignKey(PropDirection(prop.angle));
    LoadedCollectionMeaning(FallbackSpeedLimitSignProps, prefabs, key);
  }
}
