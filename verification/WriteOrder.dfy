/** The order in which a write-back buffer lets changes of the logical disk reach the device. */
module WriteOrder {
  import opened Bytes

  /** What crash consistency is about: the logical disk takes a new value, the buffer goes to the device, or file data
      goes to the device directly. */
  datatype Step = Logical(img: Image) | Flush | Direct(sect: nat, data: Sector)

  function Patched(img: Image, s: nat, data: Sector): Image {
    if s < |img| then img[s := data] else img
  }

  /** The logical disk after the given steps. */
  ghost function Current(tr: seq<Step>): Image {
    if |tr| == 0 then [] else
    var before := tr[..|tr| - 1];
    match tr[|tr| - 1]
    case Logical(img) => img
    case Flush => Current(before)
    case Direct(s, data) => Patched(Current(before), s, data)
  }

  ghost function LastOf(images: seq<Image>): Image {
    if |images| == 0 then [] else images[|images| - 1]
  }

  /** What the device has held, if every flush made it equal to the logical disk. */
  ghost function Flushed(tr: seq<Step>): seq<Image> {
    if |tr| == 0 then [] else
    var before := tr[..|tr| - 1];
    match tr[|tr| - 1]
    case Logical(_) => Flushed(before)
    case Flush => Flushed(before) + [Current(before)]
    case Direct(s, data) => Flushed(before) + [Patched(LastOf(Flushed(before)), s, data)]
  }

  lemma FlushedOnce(img: Image)
    ensures Flushed([Logical(img), Flush]) == [img] && Current([Logical(img), Flush]) == img
  {
    var tr := [Logical(img), Flush];
    assert tr[..1] == [Logical(img)];
    assert Flushed(tr[..1]) == Flushed([]) == [];
  }

  lemma FlushedMore(tr: seq<Step>, step: Step)
    ensures step.Logical? ==> Flushed(tr + [step]) == Flushed(tr) && Current(tr + [step]) == step.img
    ensures step.Flush? ==> Flushed(tr + [step]) == Flushed(tr) + [Current(tr)] && Current(tr + [step]) == Current(tr)
    ensures step.Direct? ==>
              && Flushed(tr + [step]) == Flushed(tr) + [Patched(LastOf(Flushed(tr)), step.sect, step.data)]
              && Current(tr + [step]) == Patched(Current(tr), step.sect, step.data)
  {
    assert (tr + [step])[..|tr + [step]| - 1] == tr;
  }

  // ---------- order ----------

  /** For each image the device has held, the flush that it goes back to: the one that made it, or the last one
      before the file data that made it. */
  ghost function Moments(tr: seq<Step>): seq<nat> {
    if |tr| == 0 then [] else
    var before := tr[..|tr| - 1];
    match tr[|tr| - 1]
    case Logical(_) => Moments(before)
    case Flush => Moments(before) + [|tr| - 1]
    case Direct(_, _) =>
      Moments(before) + [if |Moments(before)| == 0 then 0 else Moments(before)[|Moments(before)| - 1]]
  }

  /** For each image, how many steps of the run it took to make it. */
  ghost function Ends(tr: seq<Step>): seq<nat> {
    if |tr| == 0 then [] else
    Ends(tr[..|tr| - 1]) + if tr[|tr| - 1].Logical? then [] else [|tr|]
  }

  /** An image with the file data of these steps laid over it. */
  ghost function Overlaid(img: Image, tr: seq<Step>): Image {
    if |tr| == 0 then img else
    var before := Overlaid(img, tr[..|tr| - 1]);
    match tr[|tr| - 1]
    case Direct(s, data) => Patched(before, s, data)
    case _ => before
  }

  lemma OverlaidMore(img: Image, tr: seq<Step>, step: Step)
    ensures Overlaid(img, tr + [step]) ==
              if step.Direct? then Patched(Overlaid(img, tr), step.sect, step.data) else Overlaid(img, tr)
  {
    assert (tr + [step])[..|tr + [step]| - 1] == tr;
  }

  /** Where no file data is written, nothing is laid over. */
  lemma {:induction false} OverlaidNone(img: Image, tr: seq<Step>)
    requires forall i :: 0 <= i < |tr| ==> !tr[i].Direct?
    ensures Overlaid(img, tr) == img
  {
    if |tr| > 0 {
      OverlaidNone(img, tr[..|tr| - 1]);
    }
  }

  /** A run on a device with `n` sectors starts by mounting a clean volume. */
  ghost predicate Run(tr: seq<Step>, n: nat) {
    && |tr| >= 2 && tr[0].Logical? && tr[1].Flush?
    && forall i :: 0 <= i < |tr| && tr[i].Logical? ==> |tr[i].img| == n
  }

  lemma RunMore(tr: seq<Step>, step: Step, n: nat)
    requires step.Logical? ==> |step.img| == n
    ensures Run(tr, n) ==> Run(tr + [step], n)
  {
  }

  lemma MomentsMore(tr: seq<Step>, step: Step)
    ensures step.Logical? ==> Moments(tr + [step]) == Moments(tr) && Ends(tr + [step]) == Ends(tr)
    ensures step.Flush? ==> Moments(tr + [step]) == Moments(tr) + [|tr|]
    ensures step.Direct? ==>
              Moments(tr + [step]) == Moments(tr) + [if |Moments(tr)| == 0 then 0 else Moments(tr)[|Moments(tr)| - 1]]
    ensures !step.Logical? ==> Ends(tr + [step]) == Ends(tr) + [|tr| + 1]
  {
    assert (tr + [step])[..|tr + [step]| - 1] == tr;
  }

  /** From the flush at `m` to step `p` of the run, nothing but file data reaches the device. */
  ghost predicate Stretch(tr: seq<Step>, m: nat, p: nat) {
    m < p <= |tr| && tr[m].Flush? && forall k :: m < k < p ==> !tr[k].Flush?
  }

  /** `img` is the logical disk of moment `m` with the file data written from then to step `p` laid over it. */
  ghost predicate Explains(tr: seq<Step>, m: nat, p: nat, img: Image) {
    Stretch(tr, m, p) && img == Overlaid(Current(tr[..m]), tr[m..p])
  }

  lemma ExplainsLater(tr: seq<Step>, step: Step, m: nat, p: nat, img: Image)
    requires Explains(tr, m, p, img)
    ensures Explains(tr + [step], m, p, img)
  {
    assert (tr + [step])[..m] == tr[..m] && (tr + [step])[m..p] == tr[m..p];
  }

  /** What the device holds at the end of a run. */
  lemma {:induction false} LastExplained(tr: seq<Step>, n: nat)
    requires Run(tr, n)
    ensures |Moments(tr)| == |Ends(tr)| == |Flushed(tr)| > 0
    ensures Explains(tr, Moments(tr)[|Moments(tr)| - 1], |tr|, LastOf(Flushed(tr)))
    decreases |tr|
  {
    hide Moments, Ends, Flushed, Current, Explains;
    var before, step := tr[..|tr| - 1], tr[|tr| - 1];
    assert tr == before + [step];
    if |tr| == 2 {
      MomentsMore([], tr[0]);
      FlushedMore([], tr[0]);
      EmptyTrace();
      assert before == [] + [tr[0]];
    } else {
      LastExplained(before, n);
    }
    MomentsMore(before, step);
    FlushedMore(before, step);
    var m := Moments(tr)[|Moments(tr)| - 1];
    if step.Flush? {
      FlushExplains(before, step);
    } else {
      StepExplains(before, step, m, LastOf(Flushed(before)));
    }
  }

  /** A flush makes the device equal to the logical disk. */
  lemma FlushExplains(tr: seq<Step>, step: Step)
    requires step.Flush?
    ensures Explains(tr + [step], |tr|, |tr| + 1, Current(tr))
  {
    hide Current, Overlaid;
    var more := tr + [step];
    assert more[..|tr|] == tr && more[|tr|] == step;
    var suffix := more[|tr|..|tr| + 1];
    assert |suffix| == 1 && suffix[0] == step;
    OverlaidNone(Current(tr), suffix);
  }

  /** Any other step lays file data over what the device holds, or leaves it alone. */
  lemma StepExplains(tr: seq<Step>, step: Step, m: nat, img: Image)
    requires Explains(tr, m, |tr|, img) && !step.Flush?
    ensures Explains(tr + [step], m, |tr| + 1, if step.Direct? then Patched(img, step.sect, step.data) else img)
  {
    hide Current, Overlaid;
    var more := tr + [step];
    assert more[..m] == tr[..m] && more[m..|tr| + 1] == tr[m..|tr|] + [step];
    OverlaidMore(Current(tr[..m]), tr[m..|tr|], step);
  }

  /** Crash consistency: every image the device has held is the logical disk of a moment of the run at which the buffer
      was flushed, with just the file data laid over it that has been written since. Later images come from moments that
      are no earlier. So the buffer never reorders changes, and file data overtakes nothing but what is still in it. */
  lemma {:induction false} FlushedInOrder(tr: seq<Step>, n: nat)
    requires Run(tr, n)
    ensures 0 < |Moments(tr)| == |Ends(tr)| == |Flushed(tr)|
    ensures forall i :: 0 <= i < |Moments(tr)| ==> Explains(tr, Moments(tr)[i], Ends(tr)[i], Flushed(tr)[i])
    ensures forall i, j :: 0 <= i < j < |Moments(tr)| ==> Moments(tr)[i] <= Moments(tr)[j] && Ends(tr)[i] < Ends(tr)[j]
    decreases |tr|
  {
    hide Moments, Ends, Flushed, Current, Overlaid;
    var before, step := tr[..|tr| - 1], tr[|tr| - 1];
    assert tr == before + [step];
    if |tr| == 2 {
      MomentsMore([], tr[0]);
      FlushedMore([], tr[0]);
      EmptyTrace();
      assert before == [] + [tr[0]];
    } else {
      FlushedInOrder(before, n);
    }
    MomentsMore(before, step);
    FlushedMore(before, step);
    LastExplained(tr, n);
    forall i | 0 <= i < |Moments(before)|
      ensures Explains(tr, Moments(tr)[i], Ends(tr)[i], Flushed(tr)[i])
    {
      ExplainsLater(before, step, Moments(before)[i], Ends(before)[i], Flushed(before)[i]);
    }
    InOrder(before, step);
  }

  lemma EmptyTrace()
    ensures Moments([]) == [] && Ends([]) == [] && Flushed([]) == []
  {
  }

  lemma InOrder(tr: seq<Step>, step: Step)
    requires |Moments(tr)| == |Ends(tr)|
    requires forall i, j :: 0 <= i < j < |Moments(tr)| ==> Moments(tr)[i] <= Moments(tr)[j] && Ends(tr)[i] < Ends(tr)[j]
    requires forall i :: 0 <= i < |Moments(tr)| ==> Moments(tr)[i] < Ends(tr)[i] <= |tr|
    ensures var m, e := Moments(tr + [step]), Ends(tr + [step]);
            |m| == |e| && forall i, j :: 0 <= i < j < |m| ==> m[i] <= m[j] && e[i] < e[j]
  {
    hide Moments, Ends;
    MomentsMore(tr, step);
  }

  /** Where no file data has been written since the flush, the image is exactly the logical disk of the moment. */
  lemma FlushedExact(tr: seq<Step>, n: nat, i: nat)
    requires Run(tr, n) && i < |Flushed(tr)|
    ensures |Moments(tr)| == |Ends(tr)| == |Flushed(tr)| && Moments(tr)[i] < Ends(tr)[i] <= |tr|
    ensures (forall k :: Moments(tr)[i] <= k < Ends(tr)[i] ==> !tr[k].Direct?) ==>
              Flushed(tr)[i] == Current(tr[..Moments(tr)[i]])
  {
    hide Moments, Ends, Flushed, Current, Overlaid;
    FlushedInOrder(tr, n);
    var m, p := Moments(tr)[i], Ends(tr)[i];
    if forall k :: m <= k < p ==> !tr[k].Direct? {
      OverlaidNone(Current(tr[..m]), tr[m..p]);
    }
  }

  // ---------- single operations ----------

  /** Every logical disk from step `from` on is one of `imgs`, and no file data is written. */
  ghost predicate NewIn(tr: seq<Step>, from: nat, imgs: set<Image>) {
    forall i :: from <= i < |tr| ==> !tr[i].Direct? && (tr[i].Logical? ==> tr[i].img in imgs)
  }

  /** What reaches the device while the run goes on from `tr0` to `tr` is the logical disk at `tr0` or a newer one. */
  lemma {:induction false} FlushedSince(tr0: seq<Step>, tr: seq<Step>, imgs: set<Image>)
    requires tr0 <= tr && NewIn(tr, |tr0|, imgs)
    ensures Flushed(tr0) <= Flushed(tr)
    ensures Current(tr) in imgs + {Current(tr0)}
    ensures forall i :: |Flushed(tr0)| <= i < |Flushed(tr)| ==> Flushed(tr)[i] in imgs + {Current(tr0)}
    decreases |tr|
  {
    if tr == tr0 {
    } else {
      var before := tr[..|tr| - 1];
      FlushedSince(tr0, before, imgs);
    }
  }
}
