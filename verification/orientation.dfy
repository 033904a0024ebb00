/**
 The single-value holder for the latest camera pose and its "new data" flag.
 Storing goes through the base driver's update, which is not part of this
 model: it is a parameter `update(current, measurement)` giving the pose the
 driver holds afterwards (it may replace the value or smooth towards it).
 The model is generic in the pose type `P` and treats every operation as atomic.
 */
module OrientationSlot {

  datatype Holder<P> = Holder(currentOrientation: P, newOrientationReady: bool)

  /** The slot as the driver's initialisation leaves it: no unread pose. */
  function Initialize<P>(currentOrientation: P): (s: Holder<P>)
    ensures !s.newOrientationReady && s.currentOrientation == currentOrientation
  {
    Holder(currentOrientation, false)
  }

  /** The worker reports a measured pose; the flag is always raised. */
  function StoreNewOrientation<P>(s: Holder<P>, measurement: P, update: (P, P) -> P): (r: Holder<P>)
    ensures r.newOrientationReady
    ensures r.currentOrientation == update(s.currentOrientation, measurement)
  {
    Holder(update(s.currentOrientation, measurement), true)
  }

  /** The consumer's advisory check for an unread pose. */
  function IsNewOrientationAvailable<P>(s: Holder<P>): bool
  {
    s.newOrientationReady
  }

  /**
   The consumer reads the pose: the flag is always cleared, the held pose is
   returned and stays as it was.
   */
  function GetOrientation<P>(s: Holder<P>): (r: (Holder<P>, P))
    ensures !r.0.newOrientationReady
    ensures r.1 == s.currentOrientation && r.0.currentOrientation == s.currentOrientation
  {
    (s.(newOrientationReady := false), s.currentOrientation)
  }

  /**
   The advisory flag the consumer checks is raised by every store and lowered
   by every read.
   */
  lemma NewOrientationFlagLifecycle<P>(s: Holder<P>, measurement: P, update: (P, P) -> P)
    ensures IsNewOrientationAvailable(StoreNewOrientation(s, measurement, update))
    ensures !IsNewOrientationAvailable(GetOrientation(s).0)
  {
  }

  /** Two reads with no store between them return equal poses and report nothing new after the first. */
  lemma GetOrientationTwiceIsStable<P>(s: Holder<P>)
    ensures var (s1, p1) := GetOrientation(s);
            var (s2, p2) := GetOrientation(s1);
            && p2 == p1 && s2 == s1 && !IsNewOrientationAvailable(s1)
  {
  }

  /** An update that ignores the pose held so far, as a plain overwrite does. */
  ghost predicate Overwrites<P(!new)>(update: (P, P) -> P)
  {
    forall held, measurement :: update(held, measurement) == measurement
  }

  /**
   Last writer wins: after two stores the read returns what the update made of
   the second measurement; with an overwriting update, the second measurement
   itself. A second read returns it again and reports nothing new.
   */
  lemma LastStoreWins<P(!new)>(s: Holder<P>, a: P, b: P, update: (P, P) -> P)
    ensures var (s1, p1) := GetOrientation(StoreNewOrientation(StoreNewOrientation(s, a, update), b, update));
            var (s2, p2) := GetOrientation(s1);
            && p1 == update(update(s.currentOrientation, a), b)
            && (Overwrites(update) ==> p1 == b)
            && p2 == p1 && !IsNewOrientationAvailable(s1)
  {
  }
}
