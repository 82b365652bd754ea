/** Role classification of `owner_prediction_init_system`
    (src/prediction.rs): when an entity gains `OwnerPredicted`, every
    entity carrying a `NetworkId` is given a role marker. */
module RoleClassifier {

  /** The two marker components the classifier inserts. */
  datatype Role = Predicted | Interpolated

  /** The role each entity is given: `Predicted` for the trigger target,
      `Interpolated` for every other entity with a `NetworkId`. The source
      compares entities, not owner identities. */
  function Classify<Entity(==, !new)>(target: Entity, withNetworkId: seq<Entity>): (roles: map<Entity, Role>)
    ensures forall e :: e in roles <==> e in withNetworkId
    ensures forall e :: e in roles ==> (roles[e] == Predicted <==> e == target)
  {
    map e | e in withNetworkId :: if e == target then Predicted else Interpolated
  }

  /** The observer's loop over the `NetworkId` query. The deferred
      `commands.entity(e).insert(..)` calls it queues are returned as the
      map from entity to the marker it receives. */
  method OwnerPredictionInit<Entity(==, !new)>(target: Entity, withNetworkId: seq<Entity>)
    returns (roles: map<Entity, Role>)
    ensures forall e :: e in roles <==> e in withNetworkId
    ensures forall e :: e in roles ==> roles[e] == (if e == target then Predicted else Interpolated)
    ensures (exists e :: e in roles && roles[e] == Predicted) <==> target in withNetworkId
    ensures roles == Classify(target, withNetworkId)
  {
    roles := map[];
    var i := 0;
    while i < |withNetworkId|
      invariant 0 <= i <= |withNetworkId|
      invariant forall e :: e in roles <==> e in withNetworkId[..i]
      invariant forall e :: e in roles ==> roles[e] == (if e == target then Predicted else Interpolated)
    {
      var e := withNetworkId[i];
      if e == target {
        roles := roles[e := Predicted];
      } else {
        roles := roles[e := Interpolated];
      }
      assert withNetworkId[..i + 1] == withNetworkId[..i] + [e];
      i := i + 1;
    }
    assert withNetworkId[..i] == withNetworkId;
    if target in withNetworkId {
      assert roles[target] == Predicted;
    }
  }

  /** The marker components present on entities. */
  datatype Markers<Entity> = Markers(predicted: set<Entity>, interpolated: set<Entity>)

  /** Carrying out the queued inserts. Inserting a marker adds that
      component and removes none, so an entity keeps a marker it was given
      by an earlier classification. */
  function ApplyRoles<Entity(==, !new)>(m: Markers<Entity>, roles: map<Entity, Role>): (m': Markers<Entity>)
    ensures forall e :: e in m'.predicted <==> e in m.predicted || (e in roles && roles[e] == Predicted)
    ensures forall e :: e in m'.interpolated <==> e in m.interpolated || (e in roles && roles[e] == Interpolated)
  {
    Markers(m.predicted + (set e | e in roles && roles[e] == Predicted),
            m.interpolated + (set e | e in roles && roles[e] == Interpolated))
  }

  /** One classification over entities that carry no marker yet leaves each
      entity with a `NetworkId` holding exactly one of the two markers. */
  lemma FirstClassificationExclusive<Entity(!new)>(target: Entity, withNetworkId: seq<Entity>)
    ensures var m := ApplyRoles(Markers({}, {}), Classify(target, withNetworkId));
            forall e :: e in withNetworkId ==> (e in m.predicted <==> e !in m.interpolated)
  {
  }

  /** Two classifications triggered by different entities leave the first
      target with both markers: roles are not mutually exclusive once the
      observer runs more than once. */
  lemma RepeatedClassificationOverlaps<Entity(!new)>(a: Entity, b: Entity, withNetworkId: seq<Entity>)
    requires a != b && a in withNetworkId
    ensures var m := ApplyRoles(ApplyRoles(Markers({}, {}), Classify(a, withNetworkId)), Classify(b, withNetworkId));
            a in m.predicted && a in m.interpolated
  {
  }
}
