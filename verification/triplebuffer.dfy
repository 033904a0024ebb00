/**
 The rotation of three frame instances between the capture worker and the
 consumer. Each instance plays exactly one of three roles at any time:
 `worker` (being written by the capture thread), `available` (completely
 written, not yet claimed) and `published` (last handed to the consumer).
 Roles move by exchanging which instance a role names, never by copying
 contents. `newFrameReady` says the available instance holds a frame the
 consumer has not claimed yet.

 The model is generic in the frame content `T` and treats every operation
 as atomic.
 */
module TripleBuffer {

  /** An index into the three frame instances. */
  type InstanceIndex = i: nat | i < 3

  datatype Buffers<T> = Buffers(instances: seq<T>, worker: InstanceIndex, available: InstanceIndex, published: InstanceIndex, newFrameReady: bool)

  /** Three instances and three roles on three different instances. */
  predicate Valid<T>(b: Buffers<T>)
  {
    && |b.instances| == 3
    && b.worker != b.available && b.available != b.published && b.worker != b.published
  }

  /** Every instance plays exactly one role. */
  lemma ValidRolesArePermutation<T>(b: Buffers<T>)
    requires Valid(b)
    ensures {b.worker, b.available, b.published} == {0, 1, 2}
  {
  }

  /** The role assignment made when the driver is initialised. */
  function Initialize<T>(instances: seq<T>): (b: Buffers<T>)
    requires |instances| == 3
    ensures Valid(b) && !b.newFrameReady && b.instances == instances
    ensures b.worker == 0 && b.available == 1 && b.published == 2
  {
    Buffers(instances, 0, 1, 2, false)
  }

  /** The instance the capture thread writes into. */
  function WorkerFrame<T>(b: Buffers<T>): T
    requires Valid(b)
  {
    b.instances[b.worker]
  }

  /**
   The worker's publish: `content` is written into the worker instance, which
   then trades roles with the available instance, and the new-frame flag is set.
   The consumer's published instance is left untouched.
   */
  function Publish<T>(b: Buffers<T>, content: T): (r: Buffers<T>)
    requires Valid(b)
    ensures Valid(r) && r.newFrameReady
    ensures r.available == b.worker && r.worker == b.available && r.published == b.published
    ensures r.instances[r.available] == content
    ensures r.instances[r.published] == b.instances[b.published]
    ensures r.instances[r.worker] == b.instances[b.available]
  {
    Buffers(b.instances[b.worker := content], b.available, b.worker, b.published, true)
  }

  /** The consumer's advisory check for an unclaimed frame. */
  function IsNewFrameAvailable<T>(b: Buffers<T>): bool
  {
    b.newFrameReady
  }

  /**
   The consumer's claim: when a new frame is ready the available and published
   roles are exchanged and the flag is cleared; otherwise nothing changes.
   Either way the instance now in the published role is returned.
   */
  function GetFrame<T>(b: Buffers<T>): (r: (Buffers<T>, InstanceIndex))
    requires Valid(b)
    ensures Valid(r.0) && r.1 == r.0.published && !r.0.newFrameReady
    ensures r.0.instances == b.instances && r.0.worker == b.worker
    ensures b.newFrameReady ==> r.0.published == b.available && r.0.available == b.published
    ensures !b.newFrameReady ==> r.0 == b
  {
    if b.newFrameReady then
      (b.(available := b.published, published := b.available, newFrameReady := false), b.available)
    else
      (b, b.published)
  }

  /** The content of the instance a claim hands out. */
  function ClaimedFrame<T>(b: Buffers<T>): T
    requires Valid(b)
  {
    var (b', index) := GetFrame(b);
    b'.instances[index]
  }

  /**
   The advisory flag the consumer checks is raised by every publish and
   lowered by every claim.
   */
  lemma NewFrameFlagLifecycle<T>(b: Buffers<T>, content: T)
    requires Valid(b)
    ensures IsNewFrameAvailable(Publish(b, content))
    ensures !IsNewFrameAvailable(GetFrame(b).0)
  {
  }

  /**
   Two claims with no publish between them hand out the same instance, with
   the same content, and no new frame is reported after the first.
   */
  lemma GetFrameTwiceIsStable<T>(b: Buffers<T>)
    requires Valid(b)
    ensures var (b1, s1) := GetFrame(b);
            var (b2, s2) := GetFrame(b1);
            && !IsNewFrameAvailable(b1)
            && s2 == s1 && b2 == b1 && b2.instances[s2] == b1.instances[s1]
  {
  }

  /** The worker publishing `contents` in order, with no claim in between. */
  function PublishAll<T>(b: Buffers<T>, contents: seq<T>): (r: Buffers<T>)
    requires Valid(b)
    ensures Valid(r)
    decreases |contents|
  {
    if |contents| == 0 then b else PublishAll(Publish(b, contents[0]), contents[1..])
  }

  /** After at least one publish the available instance holds the last content published. */
  lemma {:induction false} PublishAllLeavesLastAvailable<T>(b: Buffers<T>, contents: seq<T>)
    requires Valid(b) && |contents| >= 1
    ensures var r := PublishAll(b, contents);
            r.newFrameReady && r.instances[r.available] == contents[|contents| - 1]
    decreases |contents|
  {
    if |contents| > 1 {
      PublishAllLeavesLastAvailable(Publish(b, contents[0]), contents[1..]);
    }
  }

  /** Publishing never changes which instance the consumer holds, nor its content. */
  lemma {:induction false} PublishAllKeepsPublished<T>(b: Buffers<T>, contents: seq<T>)
    requires Valid(b)
    ensures var r := PublishAll(b, contents);
            r.published == b.published && r.instances[r.published] == b.instances[b.published]
    decreases |contents|
  {
    if |contents| > 0 {
      PublishAllKeepsPublished(Publish(b, contents[0]), contents[1..]);
    }
  }

  /**
   Latest wins: after one or more publishes with no claim in between, the
   next claim hands out the content of the last one; earlier contents are
   never seen.
   */
  lemma LatestPublishWins<T>(b: Buffers<T>, contents: seq<T>)
    requires Valid(b) && |contents| >= 1
    ensures ClaimedFrame(PublishAll(b, contents)) == contents[|contents| - 1]
  {
    PublishAllLeavesLastAvailable(b, contents);
  }
}
