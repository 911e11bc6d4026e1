/** `find_slide_images` (create_video.py:423-435) on the names the directory
    listing yields, in the order it yields them. */
module SlideImages {
  import opened Wrappers
  import opened Text
  import opened SortedSets

  /** One entry of the returned dictionary: a slide number and the file
      name found for it. */
  datatype SlideImage = SlideImage(num: nat, file: string)

  /** The part of a name that must match before `$`: without MULTILINE, `$`
      also matches just before a single "\n" that ends the name. */
  function MatchTarget(name: string): string {
    if name != [] && name[|name| - 1] == '\n' then name[..|name| - 1] else name
  }

  /** `re.match(r"^slide(\d+)\.png$", name, re.IGNORECASE)`, and `int` of
      the digits when it matches. The digits are everything between the
      five letters and the four-character extension, since neither `.` nor
      a letter is a digit. */
  function SlideNumber(name: string): Option<nat> {
    var c := MatchTarget(name);
    if |c| >= 10 && EqualsIgnoringCase(c[..5], "slide") && EqualsIgnoringCase(c[|c| - 4..], ".png")
       && AllDigits(c[5..|c| - 4])
    then Some(DecimalValue(c[5..|c| - 4]))
    else None
  }

  /** `name` spells `slide<digits>.png` in any mix of cases, with or without
      a final "\n". */
  predicate SpellsSlide(name: string, digits: string) {
    EqualsIgnoringCase(name, "slide" + digits + ".png") || EqualsIgnoringCase(name, "slide" + digits + ".png\n")
  }

  /** Only a digit compares equal to a digit when case is ignored. */
  lemma DigitsIgnoringCase(a: string, digits: string)
    requires AllDigits(digits) && EqualsIgnoringCase(a, digits)
    ensures a == digits
  {
    forall i | 0 <= i < |a| ensures a[i] == digits[i] {
      assert Lower(a[i]) == digits[i];
    }
  }

  /** Equal up to case means equal up to case on every slice. */
  lemma SliceIgnoringCase(a: string, b: string, lo: nat, hi: nat)
    requires EqualsIgnoringCase(a, b) && lo <= hi <= |a|
    ensures EqualsIgnoringCase(a[lo..hi], b[lo..hi])
  {
    forall i | 0 <= i < hi - lo ensures Lower(a[lo..hi][i]) == Lower(b[lo..hi][i]) {
      assert a[lo..hi][i] == a[lo + i] && b[lo..hi][i] == b[lo + i];
    }
  }

  /** Where the word, the digits and the extension sit in `slide<digits>.png`. */
  lemma {:induction false} SlideNameParts(digits: string)
    ensures var p := "slide" + digits + ".png";
            |p| == |digits| + 9 && p[..5] == "slide" && p[|p| - 4..] == ".png" && p[5..|p| - 4] == digits
  {
  }

  /** What has to match before `$` spells `slide<digits>.png`. */
  lemma {:induction false} TargetSpellsSlide(name: string, digits: string)
    requires SpellsSlide(name, digits)
    ensures EqualsIgnoringCase(MatchTarget(name), "slide" + digits + ".png")
  {
    var pattern := "slide" + digits + ".png";
    if EqualsIgnoringCase(name, pattern) {
      assert Lower(name[|name| - 1]) == 'g';
    } else {
      assert Lower(name[|name| - 1]) == '\n';
      SliceIgnoringCase(name, pattern + "\n", 0, |pattern|);
      assert (pattern + "\n")[..|pattern|] == pattern;
    }
  }

  /** Every spelling of `slide<digits>.png` yields the value of its digits. */
  lemma {:induction false} SlideNumberMatches(name: string, digits: string)
    requires digits != [] && AllDigits(digits) && SpellsSlide(name, digits)
    ensures SlideNumber(name) == Some(DecimalValue(digits))
  {
    var pattern := "slide" + digits + ".png";
    var c := MatchTarget(name);
    TargetSpellsSlide(name, digits);
    SlideNameParts(digits);
    var n := |c|;
    SliceIgnoringCase(c, pattern, 0, 5);
    SliceIgnoringCase(c, pattern, n - 4, n);
    SliceIgnoringCase(c, pattern, 5, n - 4);
    DigitsIgnoringCase(c[5..n - 4], digits);
  }

  /** A name yields a number only when it spells `slide<digits>.png` for
      digits of that value. */
  lemma SlideNumberSound(name: string)
    requires SlideNumber(name).Some?
    ensures exists digits :: digits != [] && AllDigits(digits) && DecimalValue(digits) == SlideNumber(name).value
                          && SpellsSlide(name, digits)
  {
    var c := MatchTarget(name);
    var n := |c|;
    var digits := c[5..n - 4];
    var pattern := "slide" + digits + ".png";
    assert |pattern| == n;
    assert EqualsIgnoringCase(c, pattern) by {
      forall i | 0 <= i < n ensures Lower(c[i]) == Lower(pattern[i]) {
        if i < 5 {
          assert c[i] == c[..5][i] && pattern[i] == "slide"[i];
        } else if i < n - 4 {
          assert c[i] == digits[i - 5] && pattern[i] == digits[i - 5];
        } else {
          assert c[i] == c[n - 4..][i - (n - 4)] && pattern[i] == ".png"[i - (n - 4)];
        }
      }
    }
    if c != name {
      assert name == c + "\n";
      assert EqualsIgnoringCase(name, pattern + "\n") by {
        forall i | 0 <= i < |name| ensures Lower(name[i]) == Lower((pattern + "\n")[i]) {
          if i < n {
            assert name[i] == c[i];
          }
        }
      }
      assert pattern + "\n" == "slide" + digits + ".png\n";
    }
    assert SpellsSlide(name, digits);
  }

  /** The name `str` writes for slide `k` reads back as `k`. */
  lemma SlideNameRoundTrip(k: nat)
    ensures SlideNumber("slide" + DecimalString(k) + ".png") == Some(k)
  {
    var digits := DecimalString(k);
    var name := "slide" + digits + ".png";
    assert EqualsIgnoringCase(name, name);
    SlideNumberMatches(name, digits);
    DecimalRoundTrip(k);
  }

  // ------------------------------------------------------------ the scan

  /** The `images` dictionary after the loop has seen `names`: a later name
      with the same number replaces an earlier one. */
  function ImageMap(names: seq<string>): map<nat, string>
    decreases |names|
  {
    if names == [] then map[]
    else
      var found := ImageMap(names[..|names| - 1]);
      var name := names[|names| - 1];
      match SlideNumber(name)
      case Some(k) => found[k := name]
      case None => found
  }

  /** Every key comes from some name. */
  lemma {:induction false} ImageMapKeySource(names: seq<string>, k: nat)
    requires k in ImageMap(names)
    ensures exists i :: 0 <= i < |names| && SlideNumber(names[i]) == Some(k)
    decreases |names|
  {
    var front := names[..|names| - 1];
    if SlideNumber(names[|names| - 1]) != Some(k) {
      ImageMapKeySource(front, k);
      var i :| 0 <= i < |front| && SlideNumber(front[i]) == Some(k);
      assert names[i] == front[i];
    }
  }

  /** Every name that yields a number makes that number a key. */
  lemma {:induction false} ImageMapHasKey(names: seq<string>, i: nat)
    requires i < |names| && SlideNumber(names[i]).Some?
    ensures SlideNumber(names[i]).value in ImageMap(names)
    decreases |names|
  {
    if i < |names| - 1 {
      var front := names[..|names| - 1];
      assert front[i] == names[i];
      ImageMapHasKey(front, i);
    }
  }

  /** A number is a key exactly when some name yields it. */
  lemma ImageMapKeys(names: seq<string>)
    ensures forall k :: k in ImageMap(names) <==> exists i :: 0 <= i < |names| && SlideNumber(names[i]) == Some(k)
  {
    forall k ensures k in ImageMap(names) <==> exists i :: 0 <= i < |names| && SlideNumber(names[i]) == Some(k) {
      if k in ImageMap(names) {
        ImageMapKeySource(names, k);
      }
      if exists i :: 0 <= i < |names| && SlideNumber(names[i]) == Some(k) {
        var i :| 0 <= i < |names| && SlideNumber(names[i]) == Some(k);
        ImageMapHasKey(names, i);
      }
    }
  }

  /** The name stored for a number is the last name that yields it. */
  lemma {:induction false} ImageMapLatest(names: seq<string>, i: nat)
    requires i < |names| && SlideNumber(names[i]).Some?
    requires forall j :: i < j < |names| ==> SlideNumber(names[j]) != SlideNumber(names[i])
    ensures SlideNumber(names[i]).value in ImageMap(names)
    ensures ImageMap(names)[SlideNumber(names[i]).value] == names[i]
    decreases |names|
  {
    if i < |names| - 1 {
      var front := names[..|names| - 1];
      assert front[i] == names[i];
      forall j | i < j < |front| ensures SlideNumber(front[j]) != SlideNumber(front[i]) {
        assert front[j] == names[j];
      }
      ImageMapLatest(front, i);
    }
  }

  /** `dict(sorted(images.items()))`: the entries in ascending order of
      slide number. */
  function Listing(found: map<nat, string>): seq<SlideImage> {
    var order := Sorted(found.Keys);
    seq(|order|, i requires 0 <= i < |order| => SlideImage(order[i], found[order[i]]))
  }

  /** The listing holds every entry once, in strictly ascending order of
      number. */
  lemma ListingFacts(found: map<nat, string>)
    ensures |Listing(found)| == |found|
    ensures forall i, j :: 0 <= i < j < |Listing(found)| ==> Listing(found)[i].num < Listing(found)[j].num
    ensures forall i :: 0 <= i < |Listing(found)| ==>
              Listing(found)[i].num in found && Listing(found)[i].file == found[Listing(found)[i].num]
    ensures forall k :: k in found ==> exists i :: 0 <= i < |Listing(found)| && Listing(found)[i].num == k
  {
    var order := Sorted(found.Keys);
    var r := Listing(found);
    assert |found.Keys| == |found|;
    forall i, j | 0 <= i < j < |r| ensures r[i].num < r[j].num {
      IncreasingPairs(order, i, j);
    }
    forall k | k in found ensures exists i :: 0 <= i < |r| && r[i].num == k {
      assert k in order;
      var i :| 0 <= i < |order| && order[i] == k;
      assert r[i].num == k;
    }
  }

  /** The loop of lines 431-434, then the sort of line 435. */
  method FindSlideImages(names: seq<string>) returns (images: seq<SlideImage>)
    ensures images == Listing(ImageMap(names))
  {
    var found: map<nat, string> := map[];
    for i := 0 to |names|
      invariant found == ImageMap(names[..i])
    {
      assert names[..i + 1][..i] == names[..i];
      match SlideNumber(names[i]) {
        case Some(k) =>
          found := found[k := names[i]];
        case None =>
      }
    }
    assert names[..|names|] == names;
    images := Listing(found);
  }
}
