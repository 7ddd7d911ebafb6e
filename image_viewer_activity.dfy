/**
 * ImageViewerActivity: the full-screen pager over the gallery's bitmaps:
 * the current page, the current rotation in quarter turns, the
 * "n / total" counter, and the top bar shown or hidden by a tap.
 *
 * The rotation is a whole number of degrees: it starts at 0 and only ever
 * has 90 added modulo 360, so the float arithmetic of the source is exact.
 */
module Viewer {
  import opened Common
  import opened Text
  import opened Bitmaps

  /** `View.VISIBLE`, `View.INVISIBLE`, `View.GONE`. */
  datatype Visibility = Visible | Invisible | Gone

  /** `toggleUI`: a visible bar goes away; a bar in any other state becomes visible. */
  function Toggled(v: Visibility): Visibility
  {
    if v == Visible then Gone else Visible
  }

  /** Two taps restore the bar exactly when it did not start out INVISIBLE (which the toggle never produces). */
  lemma ToggleTwice(v: Visibility)
    ensures Toggled(v) != Invisible
    ensures Toggled(Toggled(v)) == v <==> v != Invisible
  {
  }

  /** A rotation the rotate button can produce. */
  predicate IsQuarterTurn(r: int)
  {
    r == 0 || r == 90 || r == 180 || r == 270
  }

  /** One press of the rotate button: a quarter turn more, modulo a full turn. */
  function NextRotation(r: int): (n: int)
    requires IsQuarterTurn(r)
    ensures IsQuarterTurn(n)
    ensures n == (r + 90) % 360
  {
    (r + 90) % 360
  }

  /** The rotation after k presses starting from r. */
  function Rotated(r: int, k: nat): (n: int)
    requires IsQuarterTurn(r)
    ensures IsQuarterTurn(n)
  {
    if k == 0 then r else NextRotation(Rotated(r, k - 1))
  }

  lemma QuarterTurnShift(m: int)
    ensures (m % 360 + 90) % 360 == (m + 90) % 360
  {
    var q := m / 360;
    assert m == q * 360 + m % 360;
  }

  /** After k presses the rotation is r + 90k degrees, reduced modulo 360. */
  lemma {:induction false} RotatedClosedForm(r: int, k: nat)
    requires IsQuarterTurn(r)
    ensures Rotated(r, k) == (r + 90 * k) % 360
  {
    if k > 0 {
      RotatedClosedForm(r, k - 1);
      QuarterTurnShift(r + 90 * (k - 1));
      assert r + 90 * (k - 1) + 90 == r + 90 * k;
    }
  }

  /** Four presses bring the image back to where it was; fewer never do. */
  lemma FourTurnsRestore(r: int)
    requires IsQuarterTurn(r)
    ensures Rotated(r, 4) == r
    ensures forall k: nat :: 0 < k < 4 ==> Rotated(r, k) != r
  {
    RotatedClosedForm(r, 1);
    RotatedClosedForm(r, 2);
    RotatedClosedForm(r, 3);
    RotatedClosedForm(r, 4);
  }

  /**
   * Java's decimal text of an `int`: digits without a leading zero, which
   * read back as the number, after a '-' when it is negative.
   */
  function IntToString(i: int): (s: string)
    ensures i >= 0 ==> s != [] && AllDigits(s) && ParseNat(s) == i && (s[0] == '0' ==> s == "0")
    ensures i < 0 ==> |s| >= 2 && s[0] == '-' && AllDigits(s[1..]) && s[1] != '0' && ParseNat(s[1..]) == -i
  {
    if i >= 0 then
      ParseNatToString(i);
      NatToString(i)
    else
      ParseNatToString(-i);
      var digits := NatToString(-i);
      assert ("-" + digits)[1..] == digits;
      "-" + digits
  }

  /** `updateImageCounter`: the one-based page number, " / ", the number of images. */
  function CounterText(position: int, total: nat): string
  {
    IntToString(position + 1) + " / " + NatToString(total)
  }

  /** The counter of a real page reads back as its one-based number and the total. */
  lemma CounterTextReadsBack(position: nat, total: nat)
    ensures var t := CounterText(position, total);
            var k := |NatToString(position + 1)|;
            && 0 < k && k + 3 <= |t|
            && AllDigits(t[..k]) && ParseNat(t[..k]) == position + 1
            && t[k..k + 3] == " / "
            && AllDigits(t[k + 3..]) && ParseNat(t[k + 3..]) == total
  {
    var first, second := NatToString(position + 1), NatToString(total);
    var t := CounterText(position, total);
    assert t == first + " / " + second;
    assert t[..|first|] == first;
    assert t[|first| + 3..] == second;
    ParseNatToString(position + 1);
    ParseNatToString(total);
  }

  class ImageViewerActivity {
    /** The gallery's bitmaps, handed over through the static `sharedImages`. */
    var images: seq<Bitmap>
    var currentPosition: int
    /** Degrees. */
    var currentRotation: int
    var counterText: string
    var topBar: Visibility
    /** `finish()` was called. */
    var finished: bool
    /** The pager has its adapter and the listeners are registered. */
    var adapterSet: bool

    /** What holds between events once the pager is set up. */
    ghost predicate Valid()
      reads this
    {
      && IsQuarterTurn(currentRotation)
      && (adapterSet ==> !finished && images != [] && counterText == CounterText(currentPosition, |images|))
    }

    /**
     * `onCreate`: the requested position is taken as it is; with no shared
     * list, or an empty one, the activity finishes before any adapter or
     * listener is set up; otherwise the counter shows the requested page.
     */
    constructor (shared: Option<seq<Bitmap>>, requested: int, initialTopBar: Visibility)
      ensures Valid()
      ensures currentPosition == requested && currentRotation == 0 && topBar == initialTopBar
      ensures shared.None? || shared.value == [] ==> finished && !adapterSet
      ensures shared.Some? && shared.value != [] ==>
                adapterSet && !finished && images == shared.value
                && counterText == CounterText(requested, |shared.value|)
    {
      currentRotation := 0;
      topBar := initialTopBar;
      currentPosition := requested;
      counterText := [];
      if shared.None? || shared.value == [] {
        images := [];
        finished := true;
        adapterSet := false;
      } else {
        images := shared.value;
        finished := false;
        adapterSet := true;
        counterText := CounterText(requested, |shared.value|);
      }
    }

    /** The page-change callback: the new page, rotation back to 0, the counter updated. */
    method OnPageSelected(position: int)
      requires Valid() && adapterSet
      modifies this`currentPosition, this`currentRotation, this`counterText
      ensures Valid()
      ensures currentPosition == position && currentRotation == 0
      ensures counterText == CounterText(position, |images|)
    {
      currentPosition := position;
      currentRotation := 0;
      counterText := CounterText(position, |images|);
    }

    /**
     * `rotateCurrentImage`: a quarter turn more, modulo 360; the angle is
     * returned as the one given to the current page's view.
     */
    method RotateCurrentImage() returns (applied: int)
      requires Valid() && adapterSet
      modifies this`currentRotation
      ensures Valid()
      ensures currentRotation == NextRotation(old(currentRotation)) && applied == currentRotation
    {
      currentRotation := NextRotation(currentRotation);
      applied := currentRotation;
    }

    /** `toggleUI`, on a tap of the top bar. */
    method ToggleUI()
      requires Valid() && adapterSet
      modifies this`topBar
      ensures Valid()
      ensures topBar == Toggled(old(topBar))
    {
      if topBar == Visible {
        topBar := Gone;
      } else {
        topBar := Visible;
      }
    }
  }
}
