/**
 * The eye droppers of scripts/image_ext.js: the list `currentDroppers` and
 * the `counter` shown beside the add and remove buttons. A dropper is
 * modelled by the colour it shows, `colorToString` of the pixel under it;
 * where it sits is random and the pixel it samples comes from the canvas, so
 * each operation receives the sampled pixels as arguments.
 */
module Droppers {
  import opened Wrappers
  import opened HexCodec

  /** `maxDroppers`. */
  const MaxDroppers: nat := 7

  /** The `counter` after loading an image, and `dropperCount`'s default. */
  const InitialDroppers: nat := 5

  /** A dropper element and the background colour it was given. */
  datatype Dropper = Dropper(backgroundColor: string)

  /** The dropper placed over a sampled pixel. */
  function DropperOver(pixel: Rgb): (d: Dropper)
    ensures |d.backgroundColor| == 7 && d.backgroundColor[0] == '#'
    ensures InGamut(pixel) ==> HexToRgbSliced(d.backgroundColor) == pixel
  {
    Dropper(ColorToString(pixel.r as real, pixel.g as real, pixel.b as real))
  }

  class DropperPanel {
    var currentDroppers: seq<Dropper>
    var counter: int

    /** The counter never leaves 0..7 and never falls below the number of
        droppers shown. Before the first image the counter is 5 with no
        droppers at all, so the two can differ. */
    predicate Valid()
      reads this
    {
      0 <= counter <= MaxDroppers && |currentDroppers| <= counter
    }

    /** The state the script starts with. */
    constructor()
      ensures Valid() && counter == InitialDroppers && currentDroppers == []
    {
      currentDroppers := [];
      counter := InitialDroppers;
    }

    /** `clearPreviousElements`: no dropper is left, so a valid panel stays
        valid. */
    method ClearPreviousElements()
      modifies this
      ensures currentDroppers == [] && counter == old(counter)
      ensures old(Valid()) ==> Valid()
    {
      currentDroppers := [];
    }

    /** `initializeEyeDroppers(canvas, dropperCount)` with the pixel under
        each new dropper in `pixels`: the old droppers go, and one dropper
        per pixel is pushed, in order. Only `LoadImage` calls it, and resets
        the counter afterwards; on its own it can leave more droppers than
        the counter allows, so it promises nothing about `Valid()`. */
    method InitializeEyeDroppers(pixels: seq<Rgb>)
      modifies this
      ensures |currentDroppers| == |pixels| && counter == old(counter)
      ensures forall i :: 0 <= i < |pixels| ==> currentDroppers[i] == DropperOver(pixels[i])
    {
      ClearPreviousElements();
      var i := 0;
      while i < |pixels|
        invariant 0 <= i <= |pixels| && |currentDroppers| == i && counter == old(counter)
        invariant forall k :: 0 <= k < i ==> currentDroppers[k] == DropperOver(pixels[k])
      {
        var dropper := DropperOver(pixels[i]);
        currentDroppers := currentDroppers + [dropper];
        i := i + 1;
      }
    }

    /** The image `onload` handler: five droppers over the five sampled
        pixels, and the counter back to 5. */
    method LoadImage(pixels: seq<Rgb>)
      requires |pixels| == InitialDroppers
      modifies this
      ensures Valid() && counter == InitialDroppers
      ensures |currentDroppers| == InitialDroppers
      ensures forall i :: 0 <= i < |pixels| ==> currentDroppers[i] == DropperOver(pixels[i])
    {
      InitializeEyeDroppers(pixels);
      counter := InitialDroppers;
    }

    /** The add button, with `createRandomDropper` sampling `pixel`: below
        seven, the counter goes up and a dropper is pushed; at seven nothing
        happens. */
    method AddDropper(pixel: Rgb)
      requires Valid()
      modifies this
      ensures Valid()
      ensures old(counter) < MaxDroppers ==>
        counter == old(counter) + 1 && currentDroppers == old(currentDroppers) + [DropperOver(pixel)]
      ensures old(counter) >= MaxDroppers ==>
        counter == old(counter) && currentDroppers == old(currentDroppers)
    {
      if counter < MaxDroppers {
        counter := counter + 1;
        currentDroppers := currentDroppers + [DropperOver(pixel)];
      }
    }

    /** `removeLastDropper`: pops the most recently pushed dropper, if there
        is one, and returns it; the others stay in order. */
    method RemoveLastDropper() returns (lastDropper: Option<Dropper>)
      requires Valid()
      modifies this
      ensures Valid()
      ensures counter == old(counter)
      ensures old(currentDroppers) == [] ==> lastDropper == None && currentDroppers == []
      ensures old(currentDroppers) != [] ==>
        lastDropper.Some? && old(currentDroppers) == currentDroppers + [lastDropper.value]
    {
      if currentDroppers == [] {
        lastDropper := None;
      } else {
        lastDropper := Some(currentDroppers[|currentDroppers| - 1]);
        currentDroppers := currentDroppers[..|currentDroppers| - 1];
      }
    }

    /** The remove button: above zero, the last dropper goes (if any is
        shown) and the counter goes down; at zero nothing happens. */
    method RemoveDropper()
      requires Valid()
      modifies this
      ensures Valid()
      ensures old(counter) > 0 ==>
        && counter == old(counter) - 1
        && (if old(currentDroppers) == [] then currentDroppers == []
            else currentDroppers == old(currentDroppers)[..|old(currentDroppers)| - 1])
      ensures old(counter) <= 0 ==> counter == old(counter) && currentDroppers == old(currentDroppers)
    {
      if counter > 0 {
        var removed := RemoveLastDropper();
        counter := counter - 1;
      }
    }
  }
}
