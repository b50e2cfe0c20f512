/**
 * main.go's capture configuration: the `byArea` ordering of frame sizes,
 * the choice of pixel format from `-f`, and the choice of frame size from
 * `-s`. The device's lists are inputs: the formats in the order the range
 * over `GetSupportedFormats` visits them, and the frame sizes as
 * `GetSupportedFrameSizes` returns them; `FrameSize.GetString` is a
 * function parameter.
 */
module Selection {
  import opened Imaging
  import opened Wrappers
  import opened Device
  import opened Strconv

  type U32 = x: nat | x < Two32

  /** `webcam.FrameSize`: a discrete size has equal min and max and zero steps. */
  datatype FrameSize = FrameSize(minWidth: U32, maxWidth: U32, stepWidth: U32,
                                 minHeight: U32, maxHeight: U32, stepHeight: U32)

  /** `MaxWidth * MaxHeight` as Go computes it on `uint32`: the product wraps modulo 2^32. */
  function Area(f: FrameSize): (r: U32)
    ensures f.maxWidth * f.maxHeight < Two32 ==> r == f.maxWidth * f.maxHeight
    ensures (r - f.maxWidth * f.maxHeight) % Two32 == 0
  {
    Uint32(f.maxWidth * f.maxHeight)
  }

  /** `byArea.Less`: it compares the true areas whenever both fit in 32 bits. */
  function Less(a: FrameSize, b: FrameSize): (r: bool)
    ensures a.maxWidth * a.maxHeight < Two32 && b.maxWidth * b.maxHeight < Two32 ==>
      (r <==> a.maxWidth * a.maxHeight < b.maxWidth * b.maxHeight)
  {
    Area(a) < Area(b)
  }

  /**
   * `Less` is a strict weak order, as `sort.Sort` requires: irreflexive,
   * transitive, and two sizes are unordered exactly when their wrapped
   * areas are equal.
   */
  lemma LessIsStrictWeakOrder(a: FrameSize, b: FrameSize, c: FrameSize)
    ensures !Less(a, a)
    ensures Less(a, b) && Less(b, c) ==> Less(a, c)
    ensures !Less(a, b) && !Less(b, a) <==> Area(a) == Area(b)
  {
  }

  /** Because the areas wrap, a 65536 x 65536 size orders before a 1 x 1 size. */
  lemma AreaWraps()
    ensures Less(FrameSize(0, 65536, 0, 0, 65536, 0), FrameSize(0, 1, 0, 0, 1, 0))
  {
    assert 65536 * 65536 == Two32;
  }

  predicate SortedByArea(s: seq<FrameSize>)
  {
    forall i, j :: 0 <= i < j < |s| ==> Area(s[i]) <= Area(s[j])
  }

  /** `byArea.Swap`. */
  method Swap(a: array<FrameSize>, i: nat, j: nat)
    requires i < a.Length && j < a.Length
    modifies a
    ensures a[..] == old(a[..])[i := old(a[j])][j := old(a[i])]
    ensures multiset(a[..]) == multiset(old(a[..]))
  {
    a[i], a[j] := a[j], a[i];
  }

  /**
   * `sort.Sort(frames)` through `Less` and `Swap`, by insertion: afterwards
   * the areas are non-decreasing and the sizes are the same ones.
   */
  method SortByArea(a: array<FrameSize>)
    modifies a
    ensures SortedByArea(a[..])
    ensures multiset(a[..]) == multiset(old(a[..]))
  {
    for i := 0 to a.Length
      invariant SortedByArea(a[..i])
      invariant multiset(a[..]) == multiset(old(a[..]))
    {
      var j := i;
      while j > 0 && Less(a[j], a[j - 1])
        invariant 0 <= j <= i
        invariant multiset(a[..]) == multiset(old(a[..]))
        invariant forall p, q :: 0 <= p < q <= i && q != j ==> Area(a[p]) <= Area(a[q])
        invariant 0 < j < i ==> Area(a[j - 1]) <= Area(a[j + 1])
      {
        Swap(a, j - 1, j);
        j := j - 1;
      }
    }
  }

  // ---------------------------------------------------------------------
  // Pixel format
  // ---------------------------------------------------------------------

  /** One entry of `formatDesc`: a format code and its description. */
  type FormatEntry = (PixelFormat, string)

  datatype FormatError =
    | NotSupported(desc: string)   // "format is not supported, exiting"
    | NoFormat                     // "No format found, exiting"

  /** Whether the format loop stops at this entry: the first supported one, or the one named by `-f`. */
  predicate StopsAt(e: FormatEntry, fmtstr: string)
  {
    if fmtstr == "" then Supported(e.0) else fmtstr == e.1
  }

  /** The index of the entry the format loop stops at, if any. */
  function FirstStop(formats: seq<FormatEntry>, fmtstr: string): (r: Option<nat>)
    ensures r.Some? ==> r.value < |formats| && StopsAt(formats[r.value], fmtstr)
    ensures r.Some? ==> forall k :: 0 <= k < r.value ==> !StopsAt(formats[k], fmtstr)
    ensures r.None? ==> forall k :: 0 <= k < |formats| ==> !StopsAt(formats[k], fmtstr)
  {
    if |formats| == 0 then None
    else if StopsAt(formats[0], fmtstr) then Some(0)
    else match FirstStop(formats[1..], fmtstr)
      case None => None
      case Some(k) => Some(k + 1)
  }

  /**
   * The `FMT` loop and the check after it. With `-f` empty the first
   * supported format is taken; with `-f` naming a description, the first
   * entry with that description is taken if supported and is an error
   * otherwise; choosing nothing is an error.
   */
  method ChooseFormat(formats: seq<FormatEntry>, fmtstr: string) returns (r: Result<PixelFormat, FormatError>)
    ensures r == match FirstStop(formats, fmtstr)
                 case None => Err(NoFormat)
                 case Some(k) =>
                   if Supported(formats[k].0) then Ok(formats[k].0) else Err(NotSupported(formats[k].1))
    ensures r.Ok? ==> Supported(r.value)
    ensures fmtstr == "" ==> (r.Ok? <==> exists k :: 0 <= k < |formats| && Supported(formats[k].0))
  {
    var format: PixelFormat := 0;
    var k := 0;
    while k < |formats|
      invariant 0 <= k <= |formats|
      invariant forall j :: 0 <= j < k ==> !StopsAt(formats[j], fmtstr)
    {
      var (f, s) := formats[k];
      if fmtstr == "" {
        if Supported(f) {
          format := f;
          break;
        }
      } else if fmtstr == s {
        if !Supported(f) {
          return Err(NotSupported(s));
        }
        format := f;
        break;
      }
      k := k + 1;
    }
    if format == 0 {
      return Err(NoFormat);
    }
    return Ok(format);
  }

  // ---------------------------------------------------------------------
  // Frame size
  // ---------------------------------------------------------------------

  /** `strings.Count(s, "x")` for the one-byte separator. */
  function CountX(s: string): (r: nat)
    ensures r <= |s|
  {
    if |s| == 0 then 0 else CountX(s[..|s| - 1]) + (if s[|s| - 1] == 'x' then 1 else 0)
  }

  /** `CountX` is the number of occurrences of 'x' in the string. */
  lemma {:induction false} CountXCounts(s: string)
    ensures CountX(s) == multiset(s)['x']
  {
    if |s| > 0 {
      CountXCounts(s[..|s| - 1]);
      assert s == s[..|s| - 1] + [s[|s| - 1]];
    }
  }

  /** The position of the first 'x'. */
  function IndexX(s: string): (r: nat)
    requires CountX(s) >= 1
    ensures r < |s| && s[r] == 'x'
    ensures forall j :: 0 <= j < r ==> s[j] != 'x'
  {
    var prefix := s[..|s| - 1];
    if CountX(prefix) >= 1 then
      IndexX(prefix)
    else
      NoX(prefix);
      |s| - 1
  }

  lemma {:induction false} NoX(s: string)
    requires CountX(s) == 0
    ensures forall j :: 0 <= j < |s| ==> s[j] != 'x'
  {
    if |s| > 0 {
      NoX(s[..|s| - 1]);
    }
  }

  lemma {:induction false} CountXAppend(a: string, b: string)
    ensures CountX(a + b) == CountX(a) + CountX(b)
    decreases |b|
  {
    if |b| > 0 {
      var ab := a + b;
      assert ab[..|ab| - 1] == a + b[..|b| - 1];
      assert ab[|ab| - 1] == b[|b| - 1];
      CountXAppend(a, b[..|b| - 1]);
    } else {
      assert a + b == a;
    }
  }

  /** A digit string has no 'x' in it. */
  lemma {:induction false} CountXDigits(s: string)
    requires AllDigits(s)
    ensures CountX(s) == 0
  {
    if |s| > 0 {
      CountXDigits(s[..|s| - 1]);
    }
  }

  /**
   * The `WxH` case: `strings.Split` on the single 'x' gives the text before
   * and after it; either side failing `Atoi` is fatal (`None`); the values
   * are converted with `uint32`, which keeps the low 32 bits.
   */
  function ParseSize(s: string): (r: Option<FrameSize>)
    requires CountX(s) == 1
    ensures r.Some? <==> Atoi(s[..IndexX(s)]).Some? && Atoi(s[IndexX(s) + 1..]).Some?
    ensures r.Some? ==> r.value.minWidth == 0 && r.value.stepWidth == 0 && r.value.minHeight == 0 && r.value.stepHeight == 0
    ensures r.Some? ==> forall w :: Spells(s[..IndexX(s)], w) ==> r.value.maxWidth == Uint32(w)
    ensures r.Some? ==> forall h :: Spells(s[IndexX(s) + 1..], h) ==> r.value.maxHeight == Uint32(h)
  {
    var i := IndexX(s);
    SpellsIsFunctional(s[..i]);
    SpellsIsFunctional(s[i + 1..]);
    match (Atoi(s[..i]), Atoi(s[i + 1..]))
    case (Some(x), Some(y)) => Some(FrameSize(0, Uint32(x), 0, 0, Uint32(y), 0))
    case _ => None
  }

  /** Spelling a size out as `W` `x` `H` in decimal and parsing it gives that size back. */
  lemma ParseSizeRoundTrip(w: U32, h: U32)
    ensures CountX(Decimal(w) + "x" + Decimal(h)) == 1
    ensures ParseSize(Decimal(w) + "x" + Decimal(h)) == Some(FrameSize(0, w, 0, 0, h, 0))
  {
    var s := Decimal(w) + "x" + Decimal(h);
    CountXDigits(Decimal(w));
    CountXDigits(Decimal(h));
    CountXAppend(Decimal(w), "x");
    CountXAppend(Decimal(w) + "x", Decimal(h));
    var i := IndexX(s);
    assert s[|Decimal(w)|] == 'x';
    assert forall j :: 0 <= j < |Decimal(w)| ==> s[j] == Decimal(w)[j] && IsDigit(s[j]);
    assert i == |Decimal(w)|;
    assert s[..i] == Decimal(w);
    assert s[i + 1..] == Decimal(h);
    AtoiDecimal(w);
    AtoiDecimal(h);
  }

  /** The index of the last frame size whose description is `szstr`, if any. */
  function LastMatch(frames: seq<FrameSize>, szstr: string, describe: FrameSize -> string): (r: Option<nat>)
    ensures r.Some? ==> r.value < |frames| && describe(frames[r.value]) == szstr
    ensures r.Some? ==> forall k :: r.value < k < |frames| ==> describe(frames[k]) != szstr
    ensures r.None? ==> forall k :: 0 <= k < |frames| ==> describe(frames[k]) != szstr
  {
    if |frames| == 0 then None
    else if describe(frames[|frames| - 1]) == szstr then Some(|frames| - 1)
    else LastMatch(frames[..|frames| - 1], szstr, describe)
  }

  /** The outcome of the size `switch`. */
  datatype SizeChoice =
    | Chosen(size: FrameSize)
    | Unparsable   // log.Fatalf("couldn't parse width x height")
    | NoMatch      // "No matching frame size, exiting"

  /**
   * The size `switch` of `main`, over the sorted sizes. An empty `-s` takes
   * the last, largest size (indexing an empty list panics, hence the
   * precondition); a `-s` with exactly one 'x' is parsed as `WxH`; any
   * other `-s` takes the last size whose describe equals it, `f` being a
   * fresh variable per iteration as from Go 1.22 on.
   */
  method ChooseSize(frames: seq<FrameSize>, szstr: string, describe: FrameSize -> string) returns (c: SizeChoice)
    requires szstr == "" ==> |frames| > 0
    ensures szstr == "" ==> c == Chosen(frames[|frames| - 1])
    ensures szstr == "" && SortedByArea(frames) ==> forall f :: f in frames ==> Area(f) <= Area(c.size)
    ensures szstr != "" && CountX(szstr) == 1 ==>
      c == match ParseSize(szstr) case Some(f) => Chosen(f) case None => Unparsable
    ensures szstr != "" && CountX(szstr) != 1 ==>
      c == match LastMatch(frames, szstr, describe) case Some(k) => Chosen(frames[k]) case None => NoMatch
  {
    if szstr == "" {
      c := Chosen(frames[|frames| - 1]);
      return;
    } else if CountX(szstr) == 1 {
      var parsed := ParseSize(szstr);
      if parsed.None? {
        return Unparsable;
      }
      return Chosen(parsed.value);
    }
    var size: Option<FrameSize> := None;
    for k := 0 to |frames|
      invariant size == match LastMatch(frames[..k], szstr, describe) case Some(j) => Some(frames[j]) case None => None
    {
      assert frames[..k + 1][..k] == frames[..k];
      if szstr == describe(frames[k]) {
        size := Some(frames[k]);
      }
    }
    assert frames[..|frames|] == frames;
    if size.None? {
      return NoMatch;
    }
    return Chosen(size.value);
  }
}
