/**
 * In-page navigation of the site script: which nav link carries `active` as
 * the page scrolls, and where a click on a nav link scrolls to.
 *
 * Offsets and heights are integers; a section is given by its geometry at the
 * moment of the scroll event.
 */
module Navigation {

  datatype Option<T> = None | Some(value: T)

  /** A `section[id]` element: its top offset, its height and its id. */
  datatype Section = Section(top: int, height: int, id: string)

  /** Added to the page offset to obtain the position that selects a section. */
  const ScrollOffset: int := 150

  /** The href of the link that targets the element with this id. */
  function Anchor(id: string): string {
    "#" + id
  }

  /** The half-open range test: `p` lies within the section's vertical extent. */
  predicate Contains(sec: Section, p: int) {
    sec.top <= p < sec.top + sec.height
  }

  /** The link flags when exactly the links pointing at `id` are active. */
  function MarkFor(hrefs: seq<string>, id: string): (r: seq<bool>)
    ensures |r| == |hrefs|
  {
    seq(|hrefs|, j requires 0 <= j < |hrefs| => hrefs[j] == Anchor(id))
  }

  /**
   * The link flags after the sections loop has visited `sections` in order:
   * each section containing `p` rewrites every flag, every other section
   * leaves them alone.
   */
  function Highlight(flags: seq<bool>, p: int, sections: seq<Section>, hrefs: seq<string>): (r: seq<bool>)
    requires |flags| == |hrefs|
    ensures |r| == |flags|
    decreases |sections|
  {
    if sections == [] then flags
    else
      var last := sections[|sections| - 1];
      if Contains(last, p) then MarkFor(hrefs, last.id)
      else Highlight(flags, p, sections[..|sections| - 1], hrefs)
  }

  /**
   * When some section contains `p`, the last such section in document order
   * wins: a link is active iff its href is that section's anchor.
   */
  lemma {:induction false} HighlightLastMatchWins(flags: seq<bool>, p: int, sections: seq<Section>,
                                                 hrefs: seq<string>, k: nat)
    requires |flags| == |hrefs|
    requires k < |sections| && Contains(sections[k], p)
    requires forall m :: k < m < |sections| ==> !Contains(sections[m], p)
    ensures forall j :: 0 <= j < |hrefs| ==>
      (Highlight(flags, p, sections, hrefs)[j] <==> hrefs[j] == Anchor(sections[k].id))
    decreases |sections|
  {
    var front := sections[..|sections| - 1];
    if k < |sections| - 1 {
      assert !Contains(sections[|sections| - 1], p);
      assert front[k] == sections[k];
      HighlightLastMatchWins(flags, p, front, hrefs, k);
    }
  }

  /** When no section contains `p`, every link keeps its flag. */
  lemma {:induction false} HighlightNoMatch(flags: seq<bool>, p: int, sections: seq<Section>, hrefs: seq<string>)
    requires |flags| == |hrefs|
    requires forall m :: 0 <= m < |sections| ==> !Contains(sections[m], p)
    ensures Highlight(flags, p, sections, hrefs) == flags
    decreases |sections|
  {
    if sections != [] {
      var front := sections[..|sections| - 1];
      assert !Contains(sections[|sections| - 1], p);
      assert forall m :: 0 <= m < |front| ==> front[m] == sections[m];
      HighlightNoMatch(flags, p, front, hrefs);
    }
  }

  /**
   * Where a click on a nav link scrolls to: the top of the page for `#home`,
   * the section's offset less the header height when the lookup found it,
   * and nowhere when it did not.
   */
  function ScrollTarget(href: string, found: Option<int>, headerHeight: int): (r: Option<int>)
    ensures href == "#home" ==> r == Some(0)
    ensures href != "#home" ==> (r.Some? <==> found.Some?)
    ensures href != "#home" && r.Some? ==> r.value + headerHeight == found.value
  {
    if href == "#home" then Some(0)
    else match found
      case Some(offsetTop) => Some(offsetTop - headerHeight)
      case None => None
  }

  /**
   * A click on the link for section `k` followed by the highlighter: once the
   * page rests where the click scrolled it, that link is the one marked active,
   * provided the header is no taller than the selection offset, the section
   * reaches past the selection point, and no later section also contains it.
   */
  lemma ClickThenHighlight(flags: seq<bool>, sections: seq<Section>, hrefs: seq<string>,
                           k: nat, headerHeight: int)
    requires |flags| == |hrefs|
    requires k < |sections| && Anchor(sections[k].id) != "#home"
    requires 0 <= headerHeight <= ScrollOffset < headerHeight + sections[k].height
    requires var y := ScrollTarget(Anchor(sections[k].id), Some(sections[k].top), headerHeight).value;
      forall m :: k < m < |sections| ==> !Contains(sections[m], y + ScrollOffset)
    ensures var y := ScrollTarget(Anchor(sections[k].id), Some(sections[k].top), headerHeight).value;
      forall j :: 0 <= j < |hrefs| ==>
        (Highlight(flags, y + ScrollOffset, sections, hrefs)[j] <==> hrefs[j] == Anchor(sections[k].id))
  {
    var y := ScrollTarget(Anchor(sections[k].id), Some(sections[k].top), headerHeight).value;
    HighlightLastMatchWins(flags, y + ScrollOffset, sections, hrefs, k);
  }

  /**
   * A header taller than the selection offset defeats the highlighter: the
   * click on `#about` (section top 300) with a 200-pixel header leaves the page
   * at 100, the selection point is then 250, inside the home section, so the
   * `#home` link is the one marked active.
   */
  lemma TallHeaderHighlightsEarlierSection()
    ensures var sections := [Section(0, 300, "home"), Section(300, 400, "about")];
      var y := ScrollTarget("#about", Some(300), 200);
      y == Some(100) &&
      Highlight([false, false], y.value + ScrollOffset, sections, ["#home", "#about"]) == [true, false]
  {
    var sections := [Section(0, 300, "home"), Section(300, 400, "about")];
    var hrefs := ["#home", "#about"];
    assert sections[..1] == [Section(0, 300, "home")];
    assert Highlight([false, false], 250, sections, hrefs) == MarkFor(hrefs, "home");
    assert Anchor("home") == "#home";
    assert hrefs[1][1] != Anchor("home")[1];
  }

  /** The nav links, in document order: each one's href and `active` flag. */
  class NavBar {
    const hrefs: seq<string>
    const active: array<bool>

    predicate Valid()
      reads this
    {
      active.Length == |hrefs|
    }

    constructor (hrefs: seq<string>, initial: seq<bool>)
      requires |initial| == |hrefs|
      ensures Valid() && this.hrefs == hrefs && active[..] == initial && fresh(active)
    {
      this.hrefs := hrefs;
      active := new bool[|initial|](j requires 0 <= j < |initial| => initial[j]);
    }

    /** The scroll handler that moves `active` to the link of the section under the header. */
    method HighlightOnScroll(scrollY: int, sections: seq<Section>)
      requires Valid()
      modifies active
      ensures active[..] == Highlight(old(active[..]), scrollY + ScrollOffset, sections, hrefs)
    {
      var p := scrollY + ScrollOffset;
      var i := 0;
      while i < |sections|
        invariant 0 <= i <= |sections|
        invariant active[..] == Highlight(old(active[..]), p, sections[..i], hrefs)
      {
        var sec := sections[i];
        if Contains(sec, p) {
          var j := 0;
          while j < active.Length
            invariant 0 <= j <= active.Length
            invariant forall m :: 0 <= m < j ==> active[m] == (hrefs[m] == Anchor(sec.id))
          {
            active[j] := false;
            if hrefs[j] == Anchor(sec.id) {
              active[j] := true;
            }
            j := j + 1;
          }
          assert forall m :: 0 <= m < active.Length ==> active[..][m] == MarkFor(hrefs, sec.id)[m];
        }
        assert sections[..i + 1][..i] == sections[..i];
        i := i + 1;
      }
      assert sections[..|sections|] == sections;
    }
  }
}
