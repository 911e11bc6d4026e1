/** The check in `main` that images and narration sections line up, and the
    order in which the slides are then processed (create_video.py:508-524). */
module Reconciliation {
  import opened SortedSets

  datatype Outcome =
    | Abort(imagesWithoutNarration: seq<nat>)   // the `sys.exit` of lines 511-515
    | Proceed(order: seq<nat>, narrationWithoutImages: seq<nat>)

  /** `images` and `narration` are the key sets of the two dictionaries. An
      image without narration stops the run; narration without an image is
      only reported, and the slides processed are those with both, in
      ascending order. */
  function Reconcile(images: set<nat>, narration: set<nat>): (r: Outcome)
    ensures r.Abort? <==> !(images <= narration)
    ensures r.Abort? ==> StrictlyIncreasing(r.imagesWithoutNarration)
    ensures r.Abort? ==> forall n :: n in r.imagesWithoutNarration <==> n in images && n !in narration
    ensures r.Proceed? ==> StrictlyIncreasing(r.order) && StrictlyIncreasing(r.narrationWithoutImages)
    ensures r.Proceed? ==> forall n :: n in r.order <==> n in images
    ensures r.Proceed? ==> forall n :: n in r.order ==> n in narration
    ensures r.Proceed? ==> forall n :: n in r.narrationWithoutImages <==> n in narration && n !in images
  {
    var onlyImages := Sorted(images - narration);
    var onlyNarration := Sorted(narration - images);
    if onlyImages != [] then
      assert onlyImages[0] in images - narration;
      Abort(onlyImages)
    else
      assert |images - narration| == 0;
      assert images <= narration by {
        forall n | n in images ensures n in narration {
          assert n !in images - narration;
        }
      }
      Proceed(Sorted(images * narration), onlyNarration)
  }

  /** When the run goes on, the processing order is the sorted list of the
      image numbers themselves. */
  lemma OrderIsSortedImages(images: set<nat>, narration: set<nat>)
    requires Reconcile(images, narration).Proceed?
    ensures Reconcile(images, narration).order == Sorted(images)
  {
    assert images <= narration;
    assert images * narration == images;
  }
}
