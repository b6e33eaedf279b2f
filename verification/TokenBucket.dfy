/** The relay's token bucket, one per socket. Times are milliseconds. */
module TokenBucket {
  import opened Prelude

  const FRAMES_PER_SECOND := 20.0
  const FRAME_BURST := 100.0

  datatype Bucket = Bucket(left: real, at: int)

  function MinReal(a: real, b: real): real { if a < b then a else b }

  function Earned(from: int, to: int): real { (to - from) as real / 1000.0 * FRAMES_PER_SECOND }

  /** What a socket has to spend at `now`; one the relay knows nothing of has a full burst. */
  function Available(was: Option<Bucket>, now: int): real {
    var bucket := if was.Some? then was.value else Bucket(FRAME_BURST, now);
    MinReal(FRAME_BURST, bucket.left + Earned(bucket.at, now))
  }

  predicate Accepts(was: Option<Bucket>, now: int) { Available(was, now) >= 1.0 }

  function Spent(was: Option<Bucket>, now: int): Bucket {
    var left := Available(was, now);
    Bucket(if left < 1.0 then left else left - 1.0, now)
  }

  // ---- a socket's frames, one after the other ----

  /** A frame's time, and whether the allowance was lost since the frame before. */
  datatype Frame = Frame(at: int, lost: bool)

  /** The bucket the next frame finds. */
  function Kept(frames: seq<Frame>, lost: bool): Option<Bucket> {
    if lost || frames == [] then None
    else
      var front, last := frames[..|frames| - 1], frames[|frames| - 1];
      Some(Spent(Kept(front, last.lost), last.at))
  }

  predicate AcceptedAt(frames: seq<Frame>, j: nat)
    requires j < |frames|
  {
    Accepts(Kept(frames[..j], frames[j].lost), frames[j].at)
  }

  predicate AllAccepted(frames: seq<Frame>) { forall j: nat | j < |frames| :: AcceptedAt(frames, j) }

  predicate InOrder(frames: seq<Frame>) { forall i, j | 0 <= i <= j < |frames| :: frames[i].at <= frames[j].at }

  /** No allowance was lost between frame `i` and frame `j`. */
  predicate Unbroken(frames: seq<Frame>, i: nat, j: nat)
    requires j < |frames|
  {
    forall k | i < k <= j :: !frames[k].lost
  }

  /** What the frames from `i` to `j` leave of one burst and the steady rate. */
  function Slack(frames: seq<Frame>, i: nat, j: nat): real
    requires i <= j < |frames|
  {
    FRAME_BURST + Earned(frames[i].at, frames[j].at) - (j - i + 1) as real
  }

  /** The steady rate of twenty frames a second with one burst of a hundred on
      top, over every stretch without a loss. */
  ghost predicate WithinRate(frames: seq<Frame>) {
    forall i: nat, j: nat | i <= j < |frames| && Unbroken(frames, i, j) ::
      1_000 * (j - i + 1) <= 100_000 + 20 * (frames[j].at - frames[i].at)
  }

  /** The same, by what is left of the bucket. */
  ghost predicate WithinSlack(frames: seq<Frame>) {
    forall i: nat, j: nat | i <= j < |frames| && Unbroken(frames, i, j) :: Slack(frames, i, j) >= 0.0
  }

  lemma SlackIsRate(frames: seq<Frame>, i: nat, j: nat)
    requires i <= j < |frames|
    ensures Slack(frames, i, j) >= 0.0 <==> 1_000 * (j - i + 1) <= 100_000 + 20 * (frames[j].at - frames[i].at)
  {
    var n, d := j - i + 1, frames[j].at - frames[i].at;
    assert Slack(frames, i, j) * 1000.0 == (100_000 + 20 * d - 1_000 * n) as real;
  }

  lemma EarnedAdds(a: int, b: int, c: int)
    ensures Earned(a, b) + Earned(b, c) == Earned(a, c)
  {
  }

  /** After accepted frames the bucket holds the least slack of any stretch that ends here. */
  ghost predicate HoldsLeastSlack(frames: seq<Frame>, left: real)
    requires frames != []
  {
    var j: nat := |frames| - 1;
    && (forall i: nat | i <= j && Unbroken(frames, i, j) :: left <= Slack(frames, i, j))
    && (exists i: nat :: i <= j && Unbroken(frames, i, j) && left == Slack(frames, i, j))
  }

  lemma SlackGrows(frames: seq<Frame>, i: nat, j: nat)
    requires i <= j && j + 1 < |frames|
    ensures Slack(frames, i, j + 1) == Slack(frames, i, j) + Earned(frames[j].at, frames[j + 1].at) - 1.0
    ensures Slack(frames, j + 1, j + 1) == FRAME_BURST - 1.0
  {
    EarnedAdds(frames[i].at, frames[j].at, frames[j + 1].at);
  }

  /** Leaving off the last frame changes nothing about the others. */
  lemma Shorter(frames: seq<Frame>, n: nat)
    requires n <= |frames|
    ensures forall i: nat, j: nat | i <= j < n ::
              (Unbroken(frames[..n], i, j) <==> Unbroken(frames, i, j)) && Slack(frames[..n], i, j) == Slack(frames, i, j)
    ensures forall j: nat | j < n :: AcceptedAt(frames[..n], j) == AcceptedAt(frames, j)
  {
    forall j: nat | j < n ensures AcceptedAt(frames[..n], j) == AcceptedAt(frames, j) {
      assert frames[..n][..j] == frames[..j];
    }
    forall i: nat, j: nat | i <= j < n ensures Unbroken(frames[..n], i, j) <==> Unbroken(frames, i, j) {
      assert forall k | i < k <= j :: frames[..n][k] == frames[k];
    }
  }

  /** The least slack after one more frame, accepted or not. */
  lemma LeastSlackStep(frames: seq<Frame>)
    requires |frames| > 0 && InOrder(frames)
    requires |frames| > 1 ==>
               Kept(frames[..|frames| - 1], false).Some?
               && Kept(frames[..|frames| - 1], false).value.at == frames[|frames| - 2].at
               && HoldsLeastSlack(frames[..|frames| - 1], Kept(frames[..|frames| - 1], false).value.left)
    ensures var last := frames[|frames| - 1];
            HoldsLeastSlack(frames, Available(Kept(frames[..|frames| - 1], last.lost), last.at) - 1.0)
  {
    var j: nat := |frames| - 1;
    if j > 0 && !frames[j].lost {
      SlackCarries(frames, Kept(frames[..j], false).value.left);
    } else {
      assert Unbroken(frames, j, j) && Slack(frames, j, j) == FRAME_BURST - 1.0;
      forall i: nat | i <= j && Unbroken(frames, i, j) ensures i == j {
      }
    }
  }

  lemma SlackOneMore(frames: seq<Frame>, i: nat)
    requires |frames| > 1 && !frames[|frames| - 1].lost && i < |frames| - 1
    ensures var j: nat := |frames| - 1;
            && (Unbroken(frames, i, j) <==> Unbroken(frames[..j], i, j - 1))
            && Slack(frames, i, j) == Slack(frames[..j], i, j - 1) + Earned(frames[j - 1].at, frames[j].at) - 1.0
  {
    var j: nat := |frames| - 1;
    SlackGrows(frames, i, j - 1);
    Shorter(frames, j);
    assert Unbroken(frames, i, j) <==> Unbroken(frames, i, j - 1);
  }

  /** A bucket that was kept earns up to a burst and pays for the frame. */
  lemma SlackCarries(frames: seq<Frame>, left: real)
    requires |frames| > 1 && !frames[|frames| - 1].lost
    requires HoldsLeastSlack(frames[..|frames| - 1], left)
    ensures var earned := Earned(frames[|frames| - 2].at, frames[|frames| - 1].at);
            HoldsLeastSlack(frames, MinReal(FRAME_BURST, left + earned) - 1.0)
  {
    var j: nat := |frames| - 1;
    var front, earned := frames[..j], Earned(frames[j - 1].at, frames[j].at);
    var next := MinReal(FRAME_BURST, left + earned) - 1.0;
    assert Unbroken(frames, j, j) && Slack(frames, j, j) == FRAME_BURST - 1.0;
    forall i: nat | i <= j && Unbroken(frames, i, j) ensures next <= Slack(frames, i, j) {
      if i < j {
        SlackOneMore(frames, i);
      }
    }
    var i: nat :| i <= j - 1 && Unbroken(front, i, j - 1) && left == Slack(front, i, j - 1);
    SlackOneMore(frames, i);
    assert Unbroken(frames, i, j) && Slack(frames, i, j) == left + earned - 1.0;
  }

  lemma {:induction false} AcceptedHoldsLeastSlack(frames: seq<Frame>)
    requires frames != [] && InOrder(frames) && AllAccepted(frames)
    ensures Kept(frames, false).Some? && Kept(frames, false).value.at == frames[|frames| - 1].at
    ensures HoldsLeastSlack(frames, Kept(frames, false).value.left) && Kept(frames, false).value.left >= 0.0
  {
    var front := frames[..|frames| - 1];
    Shorter(frames, |frames| - 1);
    if |frames| > 1 {
      assert AllAccepted(front);
      AcceptedHoldsLeastSlack(front);
    }
    assert AcceptedAt(frames, |frames| - 1);
    LeastSlackStep(frames);
  }

  lemma {:induction false} AcceptedIsWithinSlack(frames: seq<Frame>)
    requires InOrder(frames)
    ensures AllAccepted(frames) <==> WithinSlack(frames)
  {
    if frames != [] {
      var j: nat := |frames| - 1;
      var front := frames[..j];
      AcceptedIsWithinSlack(front);
      Shorter(frames, j);
      assert AllAccepted(frames) <==> AllAccepted(front) && AcceptedAt(frames, j);
      if AllAccepted(front) {
        if j > 0 {
          AcceptedHoldsLeastSlack(front);
        }
        LeastSlackStep(frames);
        LastDecides(frames);
      } else {
        var a: nat, b: nat :| a <= b < |front| && Unbroken(front, a, b) && Slack(front, a, b) < 0.0;
        assert Unbroken(frames, a, b) && Slack(frames, a, b) < 0.0;
      }
    }
  }

  lemma LastDecides(frames: seq<Frame>)
    requires frames != []
    requires var last := frames[|frames| - 1];
             HoldsLeastSlack(frames, Available(Kept(frames[..|frames| - 1], last.lost), last.at) - 1.0)
    ensures WithinSlack(frames) <==> WithinSlack(frames[..|frames| - 1]) && AcceptedAt(frames, |frames| - 1)
  {
    var j: nat := |frames| - 1;
    Shorter(frames, j);
    if WithinSlack(frames) {
      forall a: nat, b: nat | a <= b < j && Unbroken(frames[..j], a, b) ensures Slack(frames[..j], a, b) >= 0.0 {
        assert Unbroken(frames, a, b);
      }
    } else {
      var a: nat, b: nat :| a <= b < |frames| && Unbroken(frames, a, b) && Slack(frames, a, b) < 0.0;
      assert b < j ==> Unbroken(frames[..j], a, b);
    }
  }

  /** Exactly the frames within the rate are accepted. Over a life without
      hibernation this is the rate and one burst over every window. */
  lemma AcceptedIsWithinRate(frames: seq<Frame>)
    requires InOrder(frames)
    ensures AllAccepted(frames) <==> WithinRate(frames)
  {
    AcceptedIsWithinSlack(frames);
    forall i: nat, j: nat | i <= j < |frames| && Unbroken(frames, i, j)
      ensures Slack(frames, i, j) >= 0.0 <==> 1_000 * (j - i + 1) <= 100_000 + 20 * (frames[j].at - frames[i].at)
    {
      SlackIsRate(frames, i, j);
    }
  }

  // ---- what hibernation can do ----

  /** The same frames, with the allowance lost at least as often. */
  predicate LosesMore(frames: seq<Frame>, more: seq<Frame>) {
    |more| == |frames| && forall i | 0 <= i < |frames| :: more[i].at == frames[i].at && (frames[i].lost ==> more[i].lost)
  }

  /** Losing the allowance never turns an accept into a refusal. */
  lemma LossOnlyHelps(frames: seq<Frame>, more: seq<Frame>)
    requires InOrder(frames) && LosesMore(frames, more) && AllAccepted(frames)
    ensures AllAccepted(more)
  {
    AcceptedIsWithinSlack(frames);
    forall i: nat, j: nat | i <= j < |more| && Unbroken(more, i, j) ensures Slack(more, i, j) >= 0.0 {
      assert Unbroken(frames, i, j) && Slack(more, i, j) == Slack(frames, i, j);
    }
    AcceptedIsWithinSlack(more);
  }

  /** How often the allowance was lost after frame `i`, up to frame `j`. */
  function Losses(frames: seq<Frame>, i: nat, j: nat): nat
    requires i <= j < |frames|
  {
    if i == j then 0 else Losses(frames, i, j - 1) + (if frames[j].lost then 1 else 0)
  }

  lemma {:induction false} NoLosses(frames: seq<Frame>, i: nat, j: nat)
    requires i <= j < |frames|
    ensures Losses(frames, i, j) == 0 <==> Unbroken(frames, i, j)
  {
    if i < j {
      NoLosses(frames, i, j - 1);
    }
  }

  /** The last loss in a window. */
  lemma {:induction false} LastLoss(frames: seq<Frame>, i: nat, j: nat) returns (k: nat)
    requires i <= j < |frames| && Losses(frames, i, j) > 0
    ensures i < k <= j && Unbroken(frames, k, j) && Losses(frames, i, k - 1) == Losses(frames, i, j) - 1
  {
    if frames[j].lost {
      k := j;
    } else {
      k := LastLoss(frames, i, j - 1);
    }
  }

  lemma {:induction false} LossesAddSlack(frames: seq<Frame>, i: nat, j: nat)
    requires InOrder(frames) && AllAccepted(frames) && i <= j < |frames|
    ensures (j - i + 1) as real <= (Losses(frames, i, j) + 1) as real * FRAME_BURST + Earned(frames[i].at, frames[j].at)
    decreases j
  {
    AcceptedIsWithinSlack(frames);
    NoLosses(frames, i, j);
    if Losses(frames, i, j) > 0 {
      var k := LastLoss(frames, i, j);
      LossesAddSlack(frames, i, k - 1);
      assert Slack(frames, k, j) >= 0.0;
      EarnedAdds(frames[i].at, frames[k - 1].at, frames[k].at);
      EarnedAdds(frames[i].at, frames[k].at, frames[j].at);
      assert Earned(frames[k - 1].at, frames[k].at) >= 0.0;
    }
  }

  /** In any window of accepted frames, h losses add at most h bursts of a hundred. */
  lemma LossesAddBursts(frames: seq<Frame>, i: nat, j: nat)
    requires InOrder(frames) && AllAccepted(frames) && i <= j < |frames|
    ensures 1_000 * (j - i + 1) <= (Losses(frames, i, j) + 1) * 100_000 + 20 * (frames[j].at - frames[i].at)
  {
    LossesAddSlack(frames, i, j);
    var n, h, d := j - i + 1, Losses(frames, i, j) + 1, frames[j].at - frames[i].at;
    assert (h as real * FRAME_BURST + Earned(frames[i].at, frames[j].at)) * 1000.0 == (h * 100_000 + 20 * d) as real;
    assert n as real * 1000.0 == (1_000 * n) as real;
  }
}
