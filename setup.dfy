/** Step 1 of `main` (create_video.py:494-524): find the slide images, parse
    the script and decide which slides to process. Locating the script file,
    reading it and listing the directory happen before this: the model takes
    the listed names and the script text. */
module Setup {
  import opened Wrappers
  import opened SortedSets
  import opened SlideImages
  import opened ScriptParser
  import opened Reconciliation

  /** Why `main` stops during step 1. */
  datatype SetupError =
    | NoImages                            // lines 495-496
    | ScriptFailed(error: ParseError)     // `parse_script` raised, line 504
    | MissingNarration(slides: seq<nat>)  // lines 511-515

  /** What step 2 starts from. */
  datatype Plan = Plan(
    images: seq<SlideImage>,
    narration: map<nat, string>,
    order: seq<nat>,
    narrationWithoutImages: seq<nat>)

  /** The outcome of step 1 for a directory holding `names` and a script
      holding `text`. */
  function PlanFor(names: seq<string>, text: string): Result<Plan, SetupError> {
    var found := ImageMap(names);
    if found == map[] then Failure(NoImages)
    else
      match Parse(text)
      case Failure(e) => Failure(ScriptFailed(e))
      case Success(narration) =>
        match Reconcile(found.Keys, narration.Keys)
        case Abort(missing) => Failure(MissingNarration(missing))
        case Proceed(order, extra) => Success(Plan(Listing(found), narration, order, extra))
  }

  /** `set(slide_images)`: the numbers of the listed images. */
  function Numbers(images: seq<SlideImage>): set<nat> {
    set i | 0 <= i < |images| :: images[i].num
  }

  lemma ListingNumbers(found: map<nat, string>)
    ensures Numbers(Listing(found)) == found.Keys
  {
    var order := Sorted(found.Keys);
    var images := Listing(found);
    forall k | k in found ensures k in Numbers(images) {
      var i :| 0 <= i < |order| && order[i] == k;
      assert images[i].num == k;
    }
    forall k | k in Numbers(images) ensures k in found {
      var i :| 0 <= i < |images| && images[i].num == k;
      assert order[i] == k;
    }
  }

  lemma ListingEmpty(found: map<nat, string>)
    ensures Listing(found) == [] <==> found == map[]
  {
    if found != map[] {
      var k :| k in found;
      assert k in Sorted(found.Keys);
    } else {
      assert found.Keys == {};
    }
  }

  /** Lines 494-524 as the program runs them. */
  method PrepareSlides(names: seq<string>, text: string) returns (r: Result<Plan, SetupError>)
    ensures r == PlanFor(names, text)
  {
    var images := FindSlideImages(names);
    ListingNumbers(ImageMap(names));
    ListingEmpty(ImageMap(names));
    if images == [] {
      return Failure(NoImages);
    }
    var narration := ParseScript(text);
    if narration.Failure? {
      return Failure(ScriptFailed(narration.error));
    }
    match Reconcile(Numbers(images), narration.value.Keys) {
      case Abort(missing) =>
        r := Failure(MissingNarration(missing));
      case Proceed(order, extra) =>
        r := Success(Plan(images, narration.value, order, extra));
    }
  }

  /** A plan processes every image found, in ascending order, and each of
      them has a clean narration body; an image is found for a number
      exactly when some listed name yields it. */
  lemma PlanCoversImages(names: seq<string>, text: string)
    requires PlanFor(names, text).Success?
    ensures var p := PlanFor(names, text).value;
            p.order != [] && StrictlyIncreasing(p.order)
            && (forall n :: n in p.order <==> exists i :: 0 <= i < |names| && SlideNumber(names[i]) == Some(n))
            && (forall n :: n in p.order ==> n in p.narration && IsCleanBody(p.narration[n]))
  {
    var found := ImageMap(names);
    var narration := Parse(text).value;
    var p := PlanFor(names, text).value;
    ImageMapKeys(names);
    ParsedBodiesAreClean(text);
    var k :| k in found;
    assert k in p.order;
  }
}
