/** Quality descent: one lossy container, a fixed ladder of qualities walked
    from the highest down, stopping at the first encoding within budget. */
module QualityDescent {
  import opened Wrappers
  import opened Imaging

  /** Python's `range(start, stop, -step)` for a positive step: start,
      start - step, ... while the value stays above stop. */
  function RangeDown(start: int, stop: int, step: int): (r: seq<int>)
    requires step > 0
    ensures forall i :: 0 <= i < |r| ==> r[i] == start - i * step && r[i] > stop
    ensures start - |r| * step <= stop
    decreases start - stop
  {
    if start <= stop then [] else [start] + RangeDown(start - step, stop, step)
  }

  /** The quality ladder every descent walks: 95 down to 60 in steps of 5. */
  function Ladder(): seq<int>
  {
    [95, 90, 85, 80, 75, 70, 65, 60]
  }

  /** The source's `range(95, 59, -5)` is exactly the ladder: eight
      qualities, step -5, both 95 and 60 included. */
  lemma LadderIsRange()
    ensures RangeDown(95, 59, 5) == Ladder()
  {
  }

  /** The lossy container the descent uses. */
  datatype Container = Webp | Jpeg

  /** A transparent image is searched in WEBP, any other in JPEG. */
  function ContainerFor(img: Image): Container
  {
    if HasAlpha(img) then Webp else Jpeg
  }

  function Extension(c: Container): string
  {
    match c
    case Webp => ".webp"
    case Jpeg => ".jpg"
  }

  /** The encode call at one rung of the ladder: lossy WEBP or JPEG. */
  function LossyRequest(c: Container, q: int): Request
  {
    match c
    case Webp => EncodeWebp(q, false)
    case Jpeg => EncodeJpeg(q)
  }

  /** The encoder's answer at every rung of the ladder, in ladder order. */
  function Attempts(enc: Encoder, img: Image, c: Container): seq<Option<Bytes>>
  {
    seq(|Ladder()|, i requires 0 <= i < |Ladder()| => enc(img, LossyRequest(c, Ladder()[i])))
  }

  /** An attempt that succeeded and is within the byte budget. */
  predicate Fits(a: Option<Bytes>, target: int)
  {
    a.Some? && |a.value| <= target
  }

  /** The index of the first attempt within budget, if there is one. */
  function FirstFit(atts: seq<Option<Bytes>>, target: int): (k: Option<nat>)
    ensures k.Some? ==> k.value < |atts| && Fits(atts[k.value], target)
    ensures k.Some? ==> forall j :: 0 <= j < k.value ==> !Fits(atts[j], target)
    ensures k.None? <==> forall j :: 0 <= j < |atts| ==> !Fits(atts[j], target)
  {
    if atts == [] then None
    else if Fits(atts[0], target) then Some(0)
    else
      match FirstFit(atts[1..], target)
      case None => None
      case Some(k) => Some(k + 1)
  }

  /** The last attempt that succeeded, or `prior` when none did. */
  function LastSuccess(atts: seq<Option<Bytes>>, prior: Option<Bytes>): Option<Bytes>
  {
    if atts == [] then prior
    else if atts[|atts| - 1].Some? then atts[|atts| - 1]
    else LastSuccess(atts[..|atts| - 1], prior)
  }

  /** LastSuccess is `prior` when every attempt failed, and otherwise a
      successful attempt after which every attempt failed. */
  lemma {:induction false} LastSuccessIsLast(atts: seq<Option<Bytes>>, prior: Option<Bytes>)
    ensures (forall i :: 0 <= i < |atts| ==> atts[i].None?) ==> LastSuccess(atts, prior) == prior
    ensures (exists i :: 0 <= i < |atts| && atts[i].Some?) ==>
      exists i :: 0 <= i < |atts| && atts[i] == LastSuccess(atts, prior) && atts[i].Some? &&
        (forall j :: i < j < |atts| ==> atts[j].None?)
  {
    if atts != [] {
      var n := |atts| - 1;
      var prefix := atts[..n];
      LastSuccessIsLast(prefix, prior);
      assert forall j :: 0 <= j < n ==> prefix[j] == atts[j];
      if atts[n].None? && exists i :: 0 <= i < |atts| && atts[i].Some? {
        var i :| 0 <= i < |atts| && atts[i].Some?;
        assert prefix[i].Some?;
      }
    }
  }

  /** The running minimum: keep a candidate only when it is strictly shorter
      than the best one so far. */
  function Keep(best: Option<Bytes>, cand: Option<Bytes>): Option<Bytes>
  {
    if cand.Some? && (best.None? || |cand.value| < |best.value|) then cand else best
  }

  /** The running minimum over the attempts, in ladder order. */
  function Smallest(atts: seq<Option<Bytes>>): Option<Bytes>
  {
    if atts == [] then None else Keep(Smallest(atts[..|atts| - 1]), atts[|atts| - 1])
  }

  /** Smallest is None exactly when every attempt failed; otherwise it is a
      successful attempt no longer than any other, and strictly shorter than
      every success before it (the earliest among equals). */
  lemma {:induction false} SmallestIsMinimum(atts: seq<Option<Bytes>>)
    ensures Smallest(atts).None? <==> forall i :: 0 <= i < |atts| ==> atts[i].None?
    ensures Smallest(atts).Some? ==>
      forall j :: 0 <= j < |atts| && atts[j].Some? ==> |Smallest(atts).value| <= |atts[j].value|
    ensures Smallest(atts).Some? ==>
      exists i :: 0 <= i < |atts| && atts[i] == Smallest(atts) &&
        (forall j :: 0 <= j < i && atts[j].Some? ==> |Smallest(atts).value| < |atts[j].value|)
  {
    if atts != [] {
      var n := |atts| - 1;
      var prefix := atts[..n];
      SmallestIsMinimum(prefix);
      assert forall j :: 0 <= j < n ==> prefix[j] == atts[j];
      var p := Smallest(prefix);
      if Smallest(atts) == p && p.Some? {
        var i :| 0 <= i < n && prefix[i] == p &&
          (forall j :: 0 <= j < i && prefix[j].Some? ==> |p.value| < |prefix[j].value|);
        assert atts[i] == Smallest(atts);
      }
    }
  }

  /** The last success and the smallest success differ in general: after
      encodes of 2 and then 3 bytes the last is the 3-byte one. */
  lemma LastIsNotSmallest()
    ensures var atts: seq<Option<Bytes>> := [Some([0, 0]), Some([0, 0, 0])];
      LastSuccess(atts, None) == Some([0, 0, 0]) && Smallest(atts) == Some([0, 0])
  {
  }

  /** The first attempt within budget is the one FirstFit names. */
  lemma FirstFitAt(atts: seq<Option<Bytes>>, target: int, i: nat)
    requires i < |atts| && Fits(atts[i], target)
    requires forall j :: 0 <= j < i ==> !Fits(atts[j], target)
    ensures FirstFit(atts, target) == Some(i)
  {
  }

  /** Extending the attempts by one extends the last success by one step. */
  lemma LastSuccessStep(atts: seq<Option<Bytes>>, i: nat, prior: Option<Bytes>)
    requires i < |atts|
    ensures LastSuccess(atts[..i + 1], prior) ==
      if atts[i].Some? then atts[i] else LastSuccess(atts[..i], prior)
  {
    assert atts[..i + 1][..i] == atts[..i];
  }

  /** Extending the attempts by one extends the running minimum by one step. */
  lemma SmallestStep(atts: seq<Option<Bytes>>, i: nat)
    requires i < |atts|
    ensures Smallest(atts[..i + 1]) == Keep(Smallest(atts[..i]), atts[i])
  {
    assert atts[..i + 1][..i] == atts[..i];
  }

  /** How a descent ended: with an encoding within budget, or with the
      ladder exhausted and a leftover candidate (the last or the smallest
      success, depending on the descent). */
  datatype Descent = Fitted(data: Bytes) | Exhausted(leftover: Option<Bytes>)

  /** The descent of photo_resize.py lines 111-117 and 120-126: `b` is
      reassigned at every successful encode, and the first encoding within
      budget is returned at once. */
  method DescendQuality(enc: Encoder, img: Image, c: Container, target: int, prior: Option<Bytes>)
    returns (d: Descent)
    ensures var atts := Attempts(enc, img, c);
      match FirstFit(atts, target)
      case Some(k) => d == Fitted(atts[k].value)
      case None => d == Exhausted(LastSuccess(atts, prior))
  {
    var qs := Ladder();
    ghost var atts := Attempts(enc, img, c);
    var b := prior;
    for i := 0 to |qs|
      invariant forall j :: 0 <= j < i ==> !Fits(atts[j], target)
      invariant b == LastSuccess(atts[..i], prior)
    {
      var attempt := enc(img, LossyRequest(c, qs[i]));
      assert attempt == atts[i];
      LastSuccessStep(atts, i, prior);
      if attempt.Some? {
        b := attempt;
        if |attempt.value| <= target {
          FirstFitAt(atts, target, i);
          return Fitted(attempt.value);
        }
      }
    }
    assert atts[..|qs|] == atts;
    return Exhausted(b);
  }

  /** The descent of photo_resize.py lines 166-175 and 179-188: the same
      ladder, tracking in `best` the shortest successful candidate. */
  method DescendTrackingSmallest(enc: Encoder, img: Image, c: Container, target: int)
    returns (d: Descent)
    ensures var atts := Attempts(enc, img, c);
      match FirstFit(atts, target)
      case Some(k) => d == Fitted(atts[k].value)
      case None => d == Exhausted(Smallest(atts))
  {
    var qs := Ladder();
    ghost var atts := Attempts(enc, img, c);
    var best: Option<Bytes> := None;
    for i := 0 to |qs|
      invariant forall j :: 0 <= j < i ==> !Fits(atts[j], target)
      invariant best == Smallest(atts[..i])
    {
      var cand := enc(img, LossyRequest(c, qs[i]));
      assert cand == atts[i];
      SmallestStep(atts, i);
      if cand.Some? {
        if best.None? || |cand.value| < |best.value| {
          best := cand;
        }
        if |cand.value| <= target {
          FirstFitAt(atts, target, i);
          return Fitted(cand.value);
        }
      }
    }
    assert atts[..|qs|] == atts;
    return Exhausted(best);
  }

  /** A descent that returns from inside the ladder is within budget, and a
      descent that runs out of rungs only ever saw over-budget encodings. */
  lemma DescentBound(atts: seq<Option<Bytes>>, target: int)
    ensures FirstFit(atts, target).Some? ==> |atts[FirstFit(atts, target).value].value| <= target
    ensures FirstFit(atts, target).None? && Smallest(atts).Some? ==> |Smallest(atts).value| > target
  {
    SmallestIsMinimum(atts);
  }
}
