/**
  The per-band frame history of the weighted moving variance: a two-deep
  shift register of converted frames with a warm-up.  Slot 0 holds the
  previous frame, slot 1 the one before it.  A slot that holds no frame is
  `None`; the source's only test for that is `cv::Mat::empty()`, so a slot
  that was given an image without pixels reads as empty too.
*/
module History {
  import opened Wrappers
  import opened Images

  /** A frame after conversion to 32-bit floats, as the history keeps it. */
  type Frame = Mat<float32>

  /** `std::array<std::unique_ptr<cv::Mat>, 2>`: exactly two slots. */
  type Slots = s: seq<Option<Frame>> | |s| == 2 witness [None, None]

  /** Both slots hold a default-constructed (empty) image. */
  const EmptySlots: Slots := [None, None]

  /** What a slot reads as after `f` is moved into it. */
  function Held(f: Frame): Option<Frame>
  {
    if f.Empty() then None else Some(f)
  }

  /** The three branches of the per-band `process`. */
  datatype Phase =
    | FillFirst   // slot 0 empty: the frame is stored, nothing is written
    | FillSecond  // slot 1 empty: the history shifts, nothing is written
    | Compute     // both full: the mask is written, then the history shifts

  function PhaseOf(s: Slots): Phase
  {
    if s[0].None? then FillFirst
    else if s[1].None? then FillSecond
    else Compute
  }

  /** The history after one call of the per-band `process` with the converted frame `f`. */
  function Step(s: Slots, f: Frame): Slots
  {
    match PhaseOf(s)
    case FillFirst => [Held(f), s[1]]
    case FillSecond => [Held(f), s[0]]
    case Compute => [Held(f), s[0]]
  }

  /** The history of a band that has been given the frames `fs` since construction. */
  function Replay(fs: seq<Frame>): Slots
  {
    if fs == [] then EmptySlots else Step(Replay(fs[..|fs| - 1]), fs[|fs| - 1])
  }

  /** The shift-register invariant: slot 1 is filled only after slot 0. */
  predicate Ordered(s: Slots)
  {
    s[1].Some? ==> s[0].Some?
  }

  /** Nothing but the shape of an image decides whether it is empty. */
  predicate AllNonEmpty(fs: seq<Frame>)
  {
    forall i :: 0 <= i < |fs| ==> !fs[i].Empty()
  }

  /** Every call given a non-empty frame keeps slot 1 full only behind a full slot 0. */
  lemma StepKeepsOrdered(s: Slots, f: Frame)
    requires !f.Empty()
    ensures Ordered(Step(s, f))
    ensures Step(s, f)[0] == Some(f)
  {
  }

  /**
    The invariant needs non-empty frames: an image without pixels arriving
    after the first frame empties slot 0 and leaves slot 1 full.
  */
  lemma EmptyFrameBreaksOrdered()
    ensures exists s: Slots, f: Frame :: Ordered(s) && f.Empty() && !Ordered(Step(s, f))
  {
    var g: Frame := Mat(1, 1, 1, [0]);
    var e: Frame := Mat(0, 0, 1, []);
    var s: Slots := [Some(g), None];
    assert PhaseOf(s) == FillSecond;
    assert Step(s, e) == [None, Some(g)];
  }

  /**
    The warm-up: a band that has seen the non-empty frames `fs` remembers the
    last two of them, newest in slot 0, and is ready to compute exactly when
    it has seen at least two.
  */
  lemma {:induction false} ReplayRemembersLastTwo(fs: seq<Frame>)
    requires AllNonEmpty(fs)
    ensures |fs| == 0 ==> Replay(fs) == EmptySlots
    ensures |fs| == 1 ==> Replay(fs) == [Some(fs[0]), None]
    ensures |fs| >= 2 ==> Replay(fs) == [Some(fs[|fs| - 1]), Some(fs[|fs| - 2])]
    ensures Ordered(Replay(fs))
    ensures PhaseOf(Replay(fs)) == Compute <==> |fs| >= 2
  {
    if fs != [] {
      var init := fs[..|fs| - 1];
      assert AllNonEmpty(init) by {
        forall i | 0 <= i < |init| ensures !init[i].Empty() {
          assert init[i] == fs[i];
        }
      }
      ReplayRemembersLastTwo(init);
      assert !fs[|fs| - 1].Empty();
      if |fs| >= 2 {
        assert init[|init| - 1] == fs[|fs| - 2];
      }
    }
  }

  /**
    Output is produced only from the third frame on: of the calls made with
    the non-empty frames `fs`, call number `k` (counting from 0) writes the
    mask exactly when `k >= 2`.
  */
  lemma OutputFromThirdFrame(fs: seq<Frame>, k: nat)
    requires AllNonEmpty(fs) && k < |fs|
    ensures PhaseOf(Replay(fs[..k])) == Compute <==> k >= 2
  {
    var prefix := fs[..k];
    assert AllNonEmpty(prefix) by {
      forall i | 0 <= i < |prefix| ensures !prefix[i].Empty() {
        assert prefix[i] == fs[i];
      }
    }
    ReplayRemembersLastTwo(prefix);
  }

  /**
    A band given only images without pixels (every band of an image with
    fewer rows than bands) keeps both slots empty and never computes.
  */
  lemma {:induction false} EmptyFramesNeverCompute(fs: seq<Frame>)
    requires forall i :: 0 <= i < |fs| ==> fs[i].Empty()
    ensures Replay(fs) == EmptySlots
    ensures forall k :: 0 <= k <= |fs| ==> PhaseOf(Replay(fs[..k])) == FillFirst
  {
    if fs != [] {
      var init := fs[..|fs| - 1];
      EmptyFramesNeverCompute(init);
      assert Replay(fs) == Step(EmptySlots, fs[|fs| - 1]);
      forall k | 0 <= k <= |fs| ensures PhaseOf(Replay(fs[..k])) == FillFirst {
        if k < |fs| {
          assert fs[..k] == init[..k];
        } else {
          assert fs[..k] == fs;
        }
      }
    } else {
      forall k | 0 <= k <= |fs| ensures PhaseOf(Replay(fs[..k])) == FillFirst {
        assert fs[..k] == [];
      }
    }
  }
}
