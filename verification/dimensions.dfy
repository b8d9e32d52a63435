/** Dimension reconciliation: how far an image's pixel size is from an exact
    multiple of the target aspect ratio, whether it already is one, and which
    way it is too long (the orientation). */
module Dimensions {

  /** Quotient and remainder of `base` by `modulus`. */
  function Div(base: nat, modulus: nat): (r: (nat, nat))
    requires modulus > 0
    ensures r.0 * modulus + r.1 == base && r.1 < modulus
  {
    (base / modulus, base % modulus)
  }

  /** Div is the only quotient/remainder pair: any split of `base` into a
      multiple of `modulus` plus something smaller than `modulus` is it. */
  lemma DivUnique(base: nat, modulus: nat, q: nat, rem: nat)
    requires modulus > 0 && q * modulus + rem == base && rem < modulus
    ensures Div(base, modulus) == (q, rem)
  {
    var (q0, r0) := Div(base, modulus);
    if q0 < q {
      MulMonotone(q0 + 1, q, modulus);
      assert false;
    } else if q < q0 {
      MulMonotone(q + 1, q0, modulus);
      assert false;
    }
  }

  lemma MulMonotone(a: nat, b: nat, c: nat)
    requires a <= b
    ensures a * c <= b * c
  {
  }

  /** Which dimension of the image is too long relative to the ratio. */
  datatype Orientation = Landscape | Portrait

  /** Each dimension split by its ratio component into a multiplier and an
      overflow (the pixels left over). */
  datatype Reconciliation = Reconciliation(
    widthMultiplier: nat, widthOverflow: nat,
    heightMultiplier: nat, heightOverflow: nat)

  function Reconcile(width: nat, height: nat, ratioWidth: nat, ratioHeight: nat): (r: Reconciliation)
    requires ratioWidth > 0 && ratioHeight > 0
    ensures ratioWidth * r.widthMultiplier + r.widthOverflow == width
    ensures r.widthOverflow < ratioWidth
    ensures ratioHeight * r.heightMultiplier + r.heightOverflow == height
    ensures r.heightOverflow < ratioHeight
  {
    var (wm, wo) := Div(width, ratioWidth);
    var (hm, ho) := Div(height, ratioHeight);
    Reconciliation(wm, wo, hm, ho)
  }

  /** The image already has the target ratio exactly: nothing to trim and
      both dimensions the same multiple of the ratio. */
  predicate IsExact(r: Reconciliation) {
    r.widthOverflow == 0 && r.heightOverflow == 0 && r.widthMultiplier == r.heightMultiplier
  }

  /** The image is `m` copies of the ratio on both axes. */
  predicate IsRatioMultiple(width: nat, height: nat, ratioWidth: nat, ratioHeight: nat, m: nat) {
    width == ratioWidth * m && height == ratioHeight * m
  }

  /** The exactness test holds precisely for images whose size is a whole
      multiple of the ratio, and the common multiplier is that multiple. */
  lemma ExactIffRatioMultiple(width: nat, height: nat, ratioWidth: nat, ratioHeight: nat)
    requires ratioWidth > 0 && ratioHeight > 0
    ensures IsExact(Reconcile(width, height, ratioWidth, ratioHeight))
            <==> exists m: nat :: IsRatioMultiple(width, height, ratioWidth, ratioHeight, m)
  {
    var r := Reconcile(width, height, ratioWidth, ratioHeight);
    if IsExact(r) {
      assert IsRatioMultiple(width, height, ratioWidth, ratioHeight, r.widthMultiplier);
    }
    if m: nat :| IsRatioMultiple(width, height, ratioWidth, ratioHeight, m) {
      MultipleIsExact(m, ratioWidth, ratioHeight);
    }
  }

  /** An image of `m` ratio units on both axes reconciles to multiplier `m`
      on both axes with no overflow. */
  lemma MultipleIsExact(m: nat, ratioWidth: nat, ratioHeight: nat)
    requires ratioWidth > 0 && ratioHeight > 0
    ensures var r := Reconcile(ratioWidth * m, ratioHeight * m, ratioWidth, ratioHeight);
            IsExact(r) && r.widthMultiplier == m && r.heightMultiplier == m
  {
    DivUnique(ratioWidth * m, ratioWidth, m, 0);
    DivUnique(ratioHeight * m, ratioHeight, m, 0);
  }

  /** Landscape only when the width multiplier is strictly the larger; a tie
      is Portrait. */
  function OrientationOf(r: Reconciliation): Orientation {
    if r.widthMultiplier > r.heightMultiplier then Landscape else Portrait
  }

  /** What the orientation says about the image's shape: a Landscape image
      is strictly wider than the ratio (width * rh > height * rw), while a
      Portrait one is less than one ratio unit wider than the ratio
      (width * rh < height * rw + rw * rh). In particular an image that is not
      wider than the ratio is always Portrait, and one at least a full unit
      wider is always Landscape. */
  lemma OrientationShape(width: nat, height: nat, ratioWidth: nat, ratioHeight: nat)
    requires ratioWidth > 0 && ratioHeight > 0
    ensures var r := Reconcile(width, height, ratioWidth, ratioHeight);
            OrientationOf(r) == Landscape ==> width * ratioHeight > height * ratioWidth
    ensures var r := Reconcile(width, height, ratioWidth, ratioHeight);
            OrientationOf(r) == Portrait ==> width * ratioHeight < height * ratioWidth + ratioWidth * ratioHeight
  {
    var r := Reconcile(width, height, ratioWidth, ratioHeight);
    var wm, hm := r.widthMultiplier, r.heightMultiplier;
    if wm > hm {
      MulMonotone(hm + 1, wm, ratioWidth);
      WiderThanUnits(width, height, ratioWidth, ratioHeight, hm + 1);
    } else {
      MulMonotone(wm + 1, hm + 1, ratioWidth);
      NarrowerThanUnits(width, height, ratioWidth, ratioHeight, hm);
    }
  }

  /** At least k units wide but fewer than k units high: wider than the ratio. */
  lemma WiderThanUnits(width: nat, height: nat, rw: nat, rh: nat, k: nat)
    requires rw > 0 && width >= k * rw && height < k * rh
    ensures width * rh > height * rw
  {
    MulMonotone(k * rw, width, rh);
    StrictMul(height, k * rh, rw);
    assert k * rw * rh == k * rh * rw;
  }

  /** Fewer than k + 1 units wide and at least k units high: less than one
      unit wider than the ratio. */
  lemma NarrowerThanUnits(width: nat, height: nat, rw: nat, rh: nat, k: nat)
    requires rh > 0 && width < (k + 1) * rw && height >= k * rh
    ensures width * rh < height * rw + rw * rh
  {
    StrictMul(width, (k + 1) * rw, rh);
    MulMonotone(k * rh, height, rw);
    assert (k + 1) * rw * rh == k * rh * rw + rw * rh;
  }

  /** The Portrait branch means "taller than the ratio" except on a tie:
      a Portrait image whose multipliers differ has width * rh < height * rw.
      With `TieIsPortrait`, this places the wide Portrait images exactly at
      the ties. */
  lemma PortraitWithoutTieIsTaller(width: nat, height: nat, ratioWidth: nat, ratioHeight: nat)
    requires ratioWidth > 0 && ratioHeight > 0
    ensures var r := Reconcile(width, height, ratioWidth, ratioHeight);
            OrientationOf(r) == Portrait && r.widthMultiplier != r.heightMultiplier ==>
              width * ratioHeight < height * ratioWidth
  {
    var r := Reconcile(width, height, ratioWidth, ratioHeight);
    if OrientationOf(r) == Portrait && r.widthMultiplier != r.heightMultiplier {
      MulMonotone(r.widthMultiplier + 1, r.heightMultiplier, ratioWidth);
      TallerThanUnits(width, height, ratioWidth, ratioHeight, r.heightMultiplier);
    }
  }

  /** Fewer than k units wide but at least k units high: taller than the ratio. */
  lemma TallerThanUnits(width: nat, height: nat, rw: nat, rh: nat, k: nat)
    requires rh > 0 && width < k * rw && height >= k * rh
    ensures width * rh < height * rw
  {
    StrictMul(width, k * rw, rh);
    MulMonotone(k * rh, height, rw);
    assert k * rw * rh == k * rh * rw;
  }

  lemma StrictMul(a: nat, b: nat, c: nat)
    requires a < b && c > 0
    ensures a * c < b * c
  {
  }

  /** The tie-break: equal multipliers with some overflow left over give
      Portrait. A 5x2 image at ratio 2:1 has multiplier 2 on both axes and
      one spare column, and is handled as Portrait even though it is wider,
      not taller, than the ratio. */
  lemma TieIsPortrait()
    ensures var r := Reconcile(5, 2, 2, 1);
            && r.widthMultiplier == r.heightMultiplier && !IsExact(r) && OrientationOf(r) == Portrait
            // yet the image is wider than the ratio: 5 * 1 > 2 * 2
            && 5 * 1 > 2 * 2
  {
  }
}
