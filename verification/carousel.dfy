/** The media carousel of a project window: which images it shows, in what
    order, and how its index moves under the previous, next and dot
    controls. */
module Carousel {
  import opened Wrappers
  import opened Types
  import Arith

  /** `visuals`: the demo GIF and the architecture diagram when set and
      non-empty, then the screenshots. */
  function Visuals(p: Project): (v: seq<string>)
    ensures |v| == (if Truthy(p.demoGif) then 1 else 0) + (if Truthy(p.architectureDiagram) then 1 else 0)
                   + |p.screenshots.GetOr([])|
    ensures Truthy(p.demoGif) ==> v[0] == p.demoGif.value
    ensures !Truthy(p.demoGif) && Truthy(p.architectureDiagram) ==> v[0] == p.architectureDiagram.value
    ensures Truthy(p.demoGif) && Truthy(p.architectureDiagram) ==> v[1] == p.architectureDiagram.value
    ensures v[|v| - |p.screenshots.GetOr([])|..] == p.screenshots.GetOr([])
  {
    (if Truthy(p.demoGif) then [p.demoGif.value] else [])
    + (if Truthy(p.architectureDiagram) then [p.architectureDiagram.value] else [])
    + p.screenshots.GetOr([])
  }

  /** The carousel is drawn only when there is something to show. */
  predicate ShowsCarousel(p: Project) {
    |Visuals(p)| > 0
  }

  /** The arrows and dots are drawn only when there is more than one image. */
  predicate ShowsControls(p: Project) {
    |Visuals(p)| > 1
  }

  /** A project with a screenshot, or a truthy demo or diagram, shows the
      carousel; controls need two images among them. */
  lemma CarouselShown(p: Project)
    ensures ShowsCarousel(p) <==> Truthy(p.demoGif) || Truthy(p.architectureDiagram) || |p.screenshots.GetOr([])| > 0
    ensures ShowsControls(p) ==> ShowsCarousel(p)
  {
    var a := if Truthy(p.demoGif) then 1 else 0;
    var b := if Truthy(p.architectureDiagram) then 1 else 0;
    var c := |p.screenshots.GetOr([])|;
    assert |Visuals(p)| == a + b + c;
    assert a + b + c > 0 <==> a > 0 || b > 0 || c > 0;
  }

  /** `goToPrevious`: one back, from the first to the last. */
  function Previous(i: int, n: int): (r: int)
    ensures 0 <= i < n ==> 0 <= r < n
    ensures 0 < i < n ==> r == i - 1
    ensures i == 0 ==> r == n - 1
  {
    if i == 0 then n - 1 else i - 1
  }

  /** `goToNext`: one on, from the last to the first. */
  function Next(i: int, n: int): (r: int)
    ensures 0 <= i < n ==> 0 <= r < n
    ensures 0 <= i < n - 1 ==> r == i + 1
    ensures i == n - 1 ==> r == 0
  {
    if i == n - 1 then 0 else i + 1
  }

  /** Next and previous are steps round a cycle of length `n`. */
  lemma NextIsModular(i: int, n: int)
    requires 0 <= i < n
    ensures Next(i, n) == (i + 1) % n
    ensures Previous(i, n) == (i - 1 + n) % n
  {
    if i < n - 1 {
      Arith.DivModUnique(i + 1, n, 0, i + 1);
    } else {
      Arith.DivModUnique(i + 1, n, 1, 0);
    }
    if i == 0 {
      Arith.DivModUnique(n - 1, n, 0, n - 1);
    } else {
      Arith.DivModUnique(i - 1 + n, n, 1, i - 1);
    }
  }

  /** Next undoes previous and previous undoes next. */
  lemma NextPreviousInverse(i: int, n: int)
    requires 0 <= i < n
    ensures Next(Previous(i, n), n) == i
    ensures Previous(Next(i, n), n) == i
  {
  }

  /** The controls: an arrow, or the dot of one image. */
  datatype Control = Back | Forward | Dot(index: int)

  function Press(i: int, n: int, c: Control): int {
    match c
    case Back => Previous(i, n)
    case Forward => Next(i, n)
    case Dot(k) => k
  }

  /** The index after a sequence of presses, starting from `i`. */
  function Presses(i: int, n: int, cs: seq<Control>): int
    decreases |cs|
  {
    if |cs| == 0 then i else Presses(Press(i, n, cs[0]), n, cs[1..])
  }

  /** Dots exist only for the images there are. */
  predicate DotsInRange(cs: seq<Control>, n: int) {
    forall j :: 0 <= j < |cs| ==> cs[j].Dot? ==> 0 <= cs[j].index < n
  }

  /** Starting on an image, every press lands on an image. */
  lemma {:induction false} IndexInRange(i: int, n: int, cs: seq<Control>)
    requires 0 <= i < n && DotsInRange(cs, n)
    ensures 0 <= Presses(i, n, cs) < n
    decreases |cs|
  {
    if |cs| > 0 {
      assert DotsInRange(cs[1..], n);
      IndexInRange(Press(i, n, cs[0]), n, cs[1..]);
    }
  }

  /** The carousel opens on the first image and stays on an image. */
  lemma CarouselIndexValid(p: Project, cs: seq<Control>)
    requires ShowsCarousel(p) && DotsInRange(cs, |Visuals(p)|)
    ensures 0 <= Presses(0, |Visuals(p)|, cs) < |Visuals(p)|
  {
    IndexInRange(0, |Visuals(p)|, cs);
  }

  /** `k` presses of the forward arrow move `k` images on, cyclically. */
  lemma {:induction false} ForwardTimes(i: int, n: int, k: nat)
    requires 0 <= i < n
    ensures Presses(i, n, seq(k, _ => Forward)) == (i + k) % n
    decreases k
  {
    if k == 0 {
      Arith.DivModUnique(i, n, 0, i);
    } else {
      var cs := seq(k, _ => Forward);
      assert cs[1..] == seq(k - 1, _ => Forward);
      NextIsModular(i, n);
      var j := Next(i, n);
      ForwardTimes(j, n, k - 1);
      assert j == (i + 1) % n;
      Arith.ModShift(i + 1, n, k - 1);
    }
  }
}
