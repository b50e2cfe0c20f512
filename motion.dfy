/**
 * motion.go: one tick of the motion detector. The background model is
 * advanced with the latest image, the connected components the labeller
 * finds in its (blurred) motion mask are filtered in place by size, and a
 * motion event is sent only when a component survives.
 */
module Motion {
  import opened Imaging
  import opened Wrappers
  import opened SigmaDelta

  /** `image.Point`. */
  datatype Point = Point(x: int, y: int)

  /** `grayscale.CoCo`: the points of one connected component. */
  type CoCo = seq<Point>

  /** The components kept by the size filter, in their original order. */
  function Filtered(cocos: seq<CoCo>, minCoCo: int): (r: seq<CoCo>)
    ensures |r| <= |cocos|
    ensures forall c :: c in r ==> |c| > minCoCo
    decreases |cocos|
  {
    if |cocos| == 0 then []
    else
      var last := cocos[|cocos| - 1];
      Filtered(cocos[..|cocos| - 1], minCoCo) + if |last| > minCoCo then [last] else []
  }

  /**
   * The indices of the components that survive the filter, in increasing
   * order: exactly those with more than `minCoCo` points.
   */
  function Survivors(cocos: seq<CoCo>, minCoCo: int): (idx: seq<nat>)
    ensures forall j :: 0 <= j < |idx| ==> idx[j] < |cocos|
    ensures forall j, k :: 0 <= j < k < |idx| ==> idx[j] < idx[k]
    ensures forall i :: 0 <= i < |cocos| ==> (i in idx <==> |cocos[i]| > minCoCo)
    decreases |cocos|
  {
    if |cocos| == 0 then []
    else
      var n := |cocos| - 1;
      Survivors(cocos[..n], minCoCo) + if |cocos[n]| > minCoCo then [n] else []
  }

  /**
   * The filtered list is the surviving components, in order and unchanged:
   * its `j`-th element is the `j`-th survivor.
   */
  lemma {:induction false} FilteredAreSurvivors(cocos: seq<CoCo>, minCoCo: int)
    ensures |Filtered(cocos, minCoCo)| == |Survivors(cocos, minCoCo)|
    ensures forall j :: 0 <= j < |Filtered(cocos, minCoCo)| ==>
      Filtered(cocos, minCoCo)[j] == cocos[Survivors(cocos, minCoCo)[j]]
    decreases |cocos|
  {
    if |cocos| > 0 {
      var n := |cocos| - 1;
      var prefix := cocos[..n];
      FilteredAreSurvivors(prefix, minCoCo);
      var f, s := Filtered(prefix, minCoCo), Survivors(prefix, minCoCo);
      var keep := |cocos[n]| > minCoCo;
      assert Filtered(cocos, minCoCo) == f + if keep then [cocos[n]] else [];
      assert Survivors(cocos, minCoCo) == s + if keep then [n] else [];
      forall j | 0 <= j < |f|
        ensures f[j] == cocos[s[j]]
      {
        assert prefix[s[j]] == cocos[s[j]];
      }
    }
  }

  /** A component is in the filtered list exactly when it was in the input and has more than `minCoCo` points. */
  lemma {:induction false} FilteredMembership(cocos: seq<CoCo>, minCoCo: int, c: CoCo)
    ensures c in Filtered(cocos, minCoCo) <==> c in cocos && |c| > minCoCo
    decreases |cocos|
  {
    if |cocos| > 0 {
      var n := |cocos| - 1;
      FilteredMembership(cocos[..n], minCoCo, c);
      assert cocos == cocos[..n] + [cocos[n]];
    }
  }

  /** A component of exactly `minCoCo` points is dropped. */
  lemma BoundaryComponentDropped(c: CoCo)
    ensures Filtered([c], |c|) == []
  {
    assert [c][..0] == [];
  }

  /** Filtering one more element of `input` appends it exactly when it is large enough. */
  lemma FilteredExtend(input: seq<CoCo>, i: nat, minCoCo: int)
    requires i < |input|
    ensures Filtered(input[..i + 1], minCoCo) ==
      Filtered(input[..i], minCoCo) + if |input[i]| > minCoCo then [input[i]] else []
  {
    assert input[..i + 1][..i] == input[..i];
  }

  /**
   * The filter loop: `filteredCoCos := cocos[:0]` and `append` write the
   * survivors over the front of the same backing array. Afterwards the
   * first `n` elements are the filtered list and the rest of the array is
   * as it was.
   */
  method FilterInPlace(cocos: array<CoCo>, minCoCo: int) returns (n: nat)
    modifies cocos
    ensures n <= cocos.Length
    ensures cocos[..n] == Filtered(old(cocos[..]), minCoCo)
    ensures cocos[n..] == old(cocos[..])[n..]
  {
    ghost var input := cocos[..];
    n := 0;
    for i := 0 to cocos.Length
      invariant n <= i
      invariant cocos[..n] == Filtered(input[..i], minCoCo)
      invariant forall j :: n <= j < cocos.Length ==> cocos[j] == input[j]
    {
      FilteredExtend(input, i, minCoCo);
      assert cocos[i] == input[i];
      if |cocos[i]| > minCoCo {
        ghost var kept := cocos[..n];
        cocos[n] := cocos[i];
        assert cocos[..n + 1] == kept + [input[i]];
        n := n + 1;
        assert cocos[..n] == Filtered(input[..i + 1], minCoCo);
      } else {
        assert Filtered(input[..i + 1], minCoCo) == Filtered(input[..i], minCoCo);
      }
    }
    assert input[..cocos.Length] == input;
    assert cocos[n..] == input[n..];
  }

  /** A motion event carries the filtered components, and is only sent when there is one. */
  function Event(filtered: seq<CoCo>): (r: Option<seq<CoCo>>)
    ensures r.Some? <==> |filtered| > 0
    ensures r.Some? ==> r.value == filtered
  {
    if |filtered| > 0 then Some(filtered) else None
  }

  /** The motion mask as rows of samples, the labeller's input. */
  function MaskRows(sd: Estimator): (rows: seq<seq<Byte>>)
    requires sd.Valid()
    reads sd.e
    ensures |rows| == sd.bounds.Dy()
    ensures forall y :: 0 <= y < |rows| ==> |rows[y]| == sd.bounds.Dx()
  {
    seq(sd.bounds.Dy(), y requires 0 <= y < sd.bounds.Dy() reads sd.e =>
      seq(sd.bounds.Dx(), x requires 0 <= x < sd.bounds.Dx() reads sd.e => sd.e[x, y]))
  }

  /**
   * One tick of `motionDetector.Run`. An error from `GetImage` skips the
   * tick and leaves the background model as it was. Otherwise the model is
   * updated, the labeller (blur and `grayscale.CoCos`, a parameter here) is
   * applied to the new mask, the components are filtered in place, and an
   * event is produced only if some component survives.
   */
  method Tick(sd: Estimator, image: Result<YCbCr, string>, minCoCo: int, components: seq<seq<Byte>> -> seq<CoCo>)
    returns (event: Option<seq<CoCo>>)
    requires sd.Valid() && (image.Ok? ==> image.value.Valid())
    modifies sd.m, sd.o, sd.v, sd.e
    ensures sd.Valid()
    ensures image.Err? ==> event == None && unchanged(sd.m, sd.o, sd.v, sd.e)
    ensures image.Ok? ==> forall x: nat, y: nat :: x < sd.bounds.Dx() && y < sd.bounds.Dy() ==>
      sd.PixelAt(x, y) == PixelStep(old(sd.PixelAt(x, y)), sd.Luma(image.value, x, y), sd.n)
    ensures image.Ok? ==> event == Event(Filtered(components(MaskRows(sd)), minCoCo))
  {
    if image.Err? {
      return None;
    }
    var _ := sd.Update(image.value);
    var found := components(MaskRows(sd));
    var cocos := new CoCo[|found|](i requires 0 <= i < |found| => found[i]);
    assert cocos[..] == found;
    var n := FilterInPlace(cocos, minCoCo);
    if n > 0 {
      return Some(cocos[..n]);
    }
    return None;
  }
}
