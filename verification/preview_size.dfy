/** How the camera session picks a preview size from the sizes the camera
    offers (`getAppropriateSize`), given the size the host asked for and the
    orientation of the camera sensor. */
module PreviewSize {
  import JavaArith

  datatype Size = Size(width: int, height: int)

  /** The target compared against the offered sizes: the requested size, with
      width and height swapped when the sensor is turned a quarter turn
      (its orientation is not a multiple of 180 under Java's `%`). */
  function EffectiveTarget(targetWidth: int, targetHeight: int, orientation: int): (t: Size)
    ensures JavaArith.Rem(orientation, 180) == 0 ==> t.width == targetWidth && t.height == targetHeight
    ensures JavaArith.Rem(orientation, 180) != 0 ==> t.width == targetHeight && t.height == targetWidth
  {
    if JavaArith.Rem(orientation, 180) == 0 then Size(targetWidth, targetHeight)
    else Size(targetHeight, targetWidth)
  }

  /** `s` is strictly larger than `t` in both dimensions. */
  predicate Exceeds(s: Size, t: Size) {
    s.height > t.height && s.width > t.width
  }

  /** `s` is at least as large as `t` in both dimensions. */
  predicate Covers(s: Size, t: Size) {
    s.height >= t.height && s.width >= t.width
  }

  /** The list direction is read off its first two elements: ascending when
      the second is strictly wider or strictly taller than the first. */
  predicate IsAscending(sizes: seq<Size>)
    requires |sizes| >= 2
  {
    sizes[1].width > sizes[0].width || sizes[1].height > sizes[0].height
  }

  /** Index of the first size exceeding `t`, or of the last size if none does. */
  function FirstExceeding(sizes: seq<Size>, t: Size): (k: nat)
    requires |sizes| > 0
    ensures k < |sizes|
    ensures forall j :: 0 <= j < k ==> !Exceeds(sizes[j], t)
    ensures Exceeds(sizes[k], t) || k == |sizes| - 1
  {
    if Exceeds(sizes[0], t) || |sizes| == 1 then 0
    else 1 + FirstExceeding(sizes[1..], t)
  }

  /** Length of the longest prefix of sizes that all cover `t`. */
  function CoveredPrefix(sizes: seq<Size>, t: Size): (n: nat)
    ensures n <= |sizes|
    ensures forall j :: 0 <= j < n ==> Covers(sizes[j], t)
    ensures n < |sizes| ==> !Covers(sizes[n], t)
  {
    if sizes == [] || !Covers(sizes[0], t) then 0
    else 1 + CoveredPrefix(sizes[1..], t)
  }

  /** The selection rule. The source assumes the list is never empty (it reads
      its first element unconditionally). */
  function AppropriateSize(sizes: seq<Size>, targetWidth: int, targetHeight: int, orientation: int): (r: Size)
    requires |sizes| > 0
    ensures r in sizes
    ensures |sizes| == 1 ==> r == sizes[0]
  {
    if |sizes| == 1 then sizes[0]
    else
      var t := EffectiveTarget(targetWidth, targetHeight, orientation);
      if IsAscending(sizes) then sizes[FirstExceeding(sizes, t)]
      else
        var n := CoveredPrefix(sizes, t);
        if n == 0 then sizes[0] else sizes[n - 1]
  }

  /** No size of `sizes` exceeds `t`. */
  ghost predicate NoneExceeds(sizes: seq<Size>, t: Size) {
    forall j :: 0 <= j < |sizes| ==> !Exceeds(sizes[j], t)
  }

  /** Every size of `sizes` covers `t`. */
  ghost predicate AllCover(sizes: seq<Size>, t: Size) {
    forall j :: 0 <= j < |sizes| ==> Covers(sizes[j], t)
  }

  /** `r` is the first size of `sizes` exceeding `t`, or the last size when
      none exceeds `t`. */
  ghost predicate FirstExceedingOrLast(sizes: seq<Size>, t: Size, r: Size)
    requires |sizes| > 0
  {
    || (exists k :: 0 <= k < |sizes| && r == sizes[k] && Exceeds(sizes[k], t) && NoneExceeds(sizes[..k], t))
    || (r == sizes[|sizes| - 1] && NoneExceeds(sizes, t))
  }

  /** `r` is the last size of the longest prefix of `sizes` covering `t`, or
      the first size when that prefix is empty. */
  ghost predicate LastCoveringOrFirst(sizes: seq<Size>, t: Size, r: Size)
    requires |sizes| > 0
  {
    || (!Covers(sizes[0], t) && r == sizes[0])
    || (exists k :: 0 <= k < |sizes| && r == sizes[k] && AllCover(sizes[..k + 1], t)
                    && (k + 1 < |sizes| ==> !Covers(sizes[k + 1], t)))
  }

  /** An ascending list yields its first size that is strictly larger than the
      (possibly swapped) target in both dimensions, or its last size when no
      size is. */
  lemma AscendingSelection(sizes: seq<Size>, targetWidth: int, targetHeight: int, orientation: int)
    requires |sizes| >= 2 && IsAscending(sizes)
    ensures FirstExceedingOrLast(sizes, EffectiveTarget(targetWidth, targetHeight, orientation),
                                 AppropriateSize(sizes, targetWidth, targetHeight, orientation))
  {
  }

  /** A descending list yields the last size of its longest prefix whose sizes
      all cover the (possibly swapped) target; when already the first size
      falls short, the first size. */
  lemma DescendingSelection(sizes: seq<Size>, targetWidth: int, targetHeight: int, orientation: int)
    requires |sizes| >= 2 && !IsAscending(sizes)
    ensures LastCoveringOrFirst(sizes, EffectiveTarget(targetWidth, targetHeight, orientation),
                                AppropriateSize(sizes, targetWidth, targetHeight, orientation))
  {
  }

  /** A rotated sensor selects exactly what an upright one selects for the
      requested size with width and height exchanged; an upright sensor
      selects as if its orientation were 0. */
  lemma OrientationOnlySwapsTarget(sizes: seq<Size>, targetWidth: int, targetHeight: int, orientation: int)
    requires |sizes| > 0
    ensures JavaArith.Rem(orientation, 180) != 0 ==>
      AppropriateSize(sizes, targetWidth, targetHeight, orientation) == AppropriateSize(sizes, targetHeight, targetWidth, 0)
    ensures JavaArith.Rem(orientation, 180) == 0 ==>
      AppropriateSize(sizes, targetWidth, targetHeight, orientation) == AppropriateSize(sizes, targetWidth, targetHeight, 0)
  {
  }

  /** An ascending list, upright sensor: 1280x720 is the first size larger
      than 800x600 in both dimensions. */
  lemma AscendingExample()
    ensures AppropriateSize([Size(320, 240), Size(640, 480), Size(1280, 720)], 800, 600, 0) == Size(1280, 720)
  {
  }

  /** A descending list, sensor at 90 degrees: the requested 480x640 is
      compared as 640x480, which 640x480 still covers and 320x240 does not. */
  lemma DescendingRotatedExample()
    ensures AppropriateSize([Size(1280, 720), Size(640, 480), Size(320, 240)], 480, 640, 90) == Size(640, 480)
  {
  }

  /** The source's loops over the offered list, with their early exits. */
  method GetAppropriateSize(sizes: seq<Size>, targetWidth: int, targetHeight: int, orientation: int)
    returns (s: Size)
    requires |sizes| > 0
    ensures s == AppropriateSize(sizes, targetWidth, targetHeight, orientation)
  {
    if |sizes| == 1 {
      return sizes[0];
    }
    s := sizes[0];
    var s1 := sizes[1];
    var t := EffectiveTarget(targetWidth, targetHeight, orientation);
    if s1.width > s.width || s1.height > s.height {
      // ascending: stop at the first size exceeding the target
      var i := 0;
      while i < |sizes|
        invariant 0 <= i <= |sizes|
        invariant forall j :: 0 <= j < i ==> !Exceeds(sizes[j], t)
        invariant i > 0 ==> s == sizes[i - 1]
        invariant i == 0 ==> s == sizes[0]
      {
        s := sizes[i];
        if s.height > t.height && s.width > t.width {
          assert FirstExceeding(sizes, t) == i;
          return;
        }
        i := i + 1;
      }
    } else {
      // descending: keep the last size that still covers the target
      var i := 0;
      while i < |sizes|
        invariant 0 <= i <= |sizes|
        invariant forall j :: 0 <= j < i ==> Covers(sizes[j], t)
        invariant i > 0 ==> s == sizes[i - 1]
        invariant i == 0 ==> s == sizes[0]
      {
        var size := sizes[i];
        if size.height < t.height || size.width < t.width {
          assert CoveredPrefix(sizes, t) == i;
          return;
        }
        s := size;
        i := i + 1;
      }
    }
  }
}
