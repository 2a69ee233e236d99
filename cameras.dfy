/** Cameras as the mixing camera sees them: opaque identities. Whether a camera
    is destroyed or active is a fact about the scene, passed in by the caller. */
module Cameras {
  /** A reference to a virtual camera. `NoCamera` is the null reference (the
      camera held by a default CameraWeightPair). */
  datatype Cam = NoCamera | Camera(id: nat)

  /** Unity's implicit bool conversion of a camera reference: false for null and
      for a destroyed object. `destroyed` holds the ids of destroyed cameras. */
  predicate Alive(destroyed: set<nat>, c: Cam)
  {
    c.Camera? && c.id !in destroyed
  }

  /** `isActiveAndEnabled` of a camera; `enabled` holds the ids for which it is true. */
  predicate Active(enabled: set<nat>, c: Cam)
  {
    c.Camera? && c.id in enabled
  }

  /** UnityVectorExtensions.Epsilon, the weight below which a camera counts as off.
      The proofs rely only on its being positive, except Blend.TwoCameraTick,
      which needs it below 1 so that a weight-1 row qualifies. */
  const Epsilon: real := 0.0001

  /** Mathf.Max(0, x) */
  function Max0(x: real): real
  {
    if x < 0.0 then 0.0 else x
  }
}
