/** The projects section: the `ImageSlider` inside the detail modal, the modal's open/close state
    in `Projects`, and the tech-stack preview on each `ProjectCard`. */
module Projects {
  import JsMath
  import Cyclic
  import opened Optional

  /** The fields of a project the logic reads; description, features and links are display text. */
  datatype Project = Project(id: string, title: string, image: string, images: Option<seq<string>>, techStack: seq<string>)

  // ---------------------------------------------------------------------------------------------
  // ImageSlider

  /** The slider buttons: the two arrows and a dot per image. */
  datatype SliderEvent = Prev | Next | Dot(target: int)

  /** What one render of the slider shows: the current image (`images[currentImageIndex]`, which
      is `undefined` past the end of the list), the "position / total" badge, whether the arrows
      and dots appear, and which dots are highlighted. */
  datatype SliderView = SliderView(image: Option<string>, position: int, total: int, controls: bool, dots: seq<bool>)

  /** `currentImageIndex` starts at 0. */
  const InitialImageIndex := 0

  /** `goToPrev`: `(prev - 1 + images.length) % images.length`. */
  function GoToPrev(current: int, count: int): (r: int)
    requires count > 0
    ensures 0 <= current < count ==> 0 <= r < count
    ensures current == 0 ==> r == count - 1
    ensures 0 < current < count ==> r == current - 1
  {
    Cyclic.Pred(current, count)
  }

  /** `goToNext`: `(prev + 1) % images.length`. */
  function GoToNext(current: int, count: int): (r: int)
    requires count > 0
    ensures 0 <= current < count ==> 0 <= r < count
    ensures current == count - 1 ==> r == 0
    ensures 0 <= current < count - 1 ==> r == current + 1
  {
    Cyclic.Succ(current, count)
  }

  /** A dot or arrow press; a dot sets the index to its own position. The handlers only exist once
      the list is known to be non-empty. */
  function SliderStep(current: int, count: int, e: SliderEvent): (r: int)
    requires count > 0
    ensures 0 <= current < count && (e.Dot? ==> 0 <= e.target < count) ==> 0 <= r < count
    ensures e.Dot? ==> r == e.target
  {
    match e
    case Prev => GoToPrev(current, count)
    case Next => GoToNext(current, count)
    case Dot(t) => t
  }

  /** The number of highlighted dots. */
  function CountActive(dots: seq<bool>): nat
    decreases |dots|
  {
    if |dots| == 0 then 0 else (if dots[0] then 1 else 0) + CountActive(dots[1..])
  }

  /** Dots highlighted exactly where their position is `current`. */
  function Dots(count: nat, current: int): (dots: seq<bool>)
    ensures |dots| == count
    ensures forall k :: 0 <= k < count ==> (dots[k] <==> k == current)
    ensures CountActive(dots) == (if 0 <= current < count then 1 else 0)
  {
    var dots := seq(count, k requires 0 <= k < count => k == current);
    OneDotActive(dots, current);
    dots
  }

  /** A row of dots highlighted only at position `current` has one highlight when `current` is in
      the row, none otherwise. */
  lemma {:induction false} OneDotActive(dots: seq<bool>, current: int)
    requires forall k :: 0 <= k < |dots| ==> (dots[k] <==> k == current)
    ensures CountActive(dots) == (if 0 <= current < |dots| then 1 else 0)
    decreases |dots|
  {
    if |dots| > 0 {
      var rest := dots[1..];
      OneDotActive(rest, current - 1);
    }
  }

  /** One render of `ImageSlider`: nothing for an empty list; otherwise the image under the index,
      the 1-based badge, and the arrows and dots only when there is more than one image. Nothing
      in the component checks the index against the list. */
  function RenderSlider(images: seq<string>, current: int): (v: Option<SliderView>)
    ensures v.None? <==> |images| == 0
    ensures v.Some? ==> (v.value.image.Some? <==> 0 <= current < |images|)
    ensures v.Some? && v.value.image.Some? ==> v.value.image.value == images[current]
    ensures v.Some? ==> v.value.position == current + 1 && v.value.total == |images|
    ensures v.Some? && 0 <= current < |images| ==> 1 <= v.value.position <= v.value.total
    ensures v.Some? ==> (v.value.controls <==> |images| > 1)
    ensures v.Some? && v.value.controls ==> |v.value.dots| == |images|
    ensures v.Some? && v.value.controls ==> CountActive(v.value.dots) == (if 0 <= current < |images| then 1 else 0)
    ensures v.Some? && v.value.controls ==> forall k :: 0 <= k < |v.value.dots| ==> (v.value.dots[k] <==> k == current)
    ensures v.Some? && !v.value.controls ==> v.value.dots == []
  {
    if |images| == 0 then None
    else
      var controls := |images| > 1;
      var image := if 0 <= current < |images| then Some(images[current]) else None;
      Some(SliderView(image, current + 1, |images|, controls, if controls then Dots(|images|, current) else []))
  }

  /** The arrows are inverse to each other. */
  lemma PrevUndoesNext(current: int, count: int)
    requires 0 <= current < count
    ensures GoToPrev(GoToNext(current, count), count) == current
    ensures GoToNext(GoToPrev(current, count), count) == current
  {
  }

  /** The slider index after `k` presses of the same button. */
  function Presses(current: int, count: int, e: SliderEvent, k: nat): int
    requires count > 0
    decreases k
  {
    if k == 0 then current else SliderStep(Presses(current, count, e, k - 1), count, e)
  }

  /** Pressing "next" `k` times is the modular counter's `k` steps forward. */
  lemma {:induction false} NextPressesCount(current: int, count: int, k: nat)
    requires count > 0
    ensures Presses(current, count, Next, k) == Cyclic.SuccN(current, count, k)
    decreases k
  {
    if k > 0 {
      NextPressesCount(current, count, k - 1);
    }
  }

  /** Pressing "next" once per image shows the starting image again. */
  lemma NextFullTurn(current: int, count: int)
    requires 0 <= current < count
    ensures Presses(current, count, Next, count) == current
  {
    NextPressesCount(current, count, count);
    Cyclic.SuccNFullTurn(current, count);
  }

  // ---------------------------------------------------------------------------------------------
  // ProjectModal

  /** The list handed to the slider: `project.images || [project.image]`. An empty array is truthy
      in JavaScript, so an explicitly empty `images` is passed through. */
  function ModalImages(p: Project): (imgs: seq<string>)
    ensures p.images.None? ==> imgs == [p.image]
    ensures p.images.Some? ==> imgs == p.images.value
    ensures |imgs| == 0 <==> p.images == Some([])
  {
    p.images.GetOr([p.image])
  }

  /** The section's state: `selectedProject`, `isModalOpen`, and the state of the `ImageSlider`
      mounted inside the modal (absent while the modal renders nothing). */
  datatype Page = Page(selected: Option<Project>, isModalOpen: bool, slider: Option<int>)

  const InitialPage := Page(None, false, None)

  /** The modal's render guard: `if (!isOpen || !project) return null`. */
  predicate ModalVisible(page: Page) {
    page.isModalOpen && page.selected.Some?
  }

  /** There is a slider exactly while the modal shows. */
  predicate Mounted(page: Page) {
    page.slider.Some? <==> ModalVisible(page)
  }

  /** Besides, the slider index names an image of the shown project, or is the initial 0 for a
      project whose list is empty. */
  predicate Valid(page: Page) {
    && Mounted(page)
    && (page.slider.Some? ==>
          var count := |ModalImages(page.selected.value)|;
          0 <= page.slider.value && (page.slider.value < count || page.slider.value == 0))
  }

  /** Every project the section selects comes from its own list. */
  predicate Listed(page: Page) {
    page.selected.Some? ==> page.selected.value in Catalogue
  }

  /** A re-render with new `selectedProject` / `isModalOpen`. A slider that stays mounted keeps its
      state when it sits at the same place in the tree with the same key, a newly mounted one starts
      at 0, an unmounted one is dropped. As written (`keyed` false) the slider has no key, so it
      keeps its index across a change of project; with `key={project.id}` (`keyed` true) a new id
      mounts a fresh slider. */
  function Rerender(page: Page, selected: Option<Project>, open: bool, keyed: bool): (r: Page)
    requires Mounted(page)
    ensures r.selected == selected && r.isModalOpen == open
    ensures Mounted(r)
    ensures ModalVisible(r) && !ModalVisible(page) ==> r.slider == Some(InitialImageIndex)
    ensures ModalVisible(r) && ModalVisible(page) && !keyed ==> r.slider == page.slider
    ensures ModalVisible(r) && ModalVisible(page) && keyed ==>
              r.slider == (if selected.value.id == page.selected.value.id then page.slider else Some(InitialImageIndex))
  {
    var visible := open && selected.Some?;
    var slider :=
      if !visible then None
      else if ModalVisible(page) && (!keyed || selected.value.id == page.selected.value.id) then page.slider
      else Some(InitialImageIndex);
    Page(selected, open, slider)
  }

  /** `openModal(project)`. */
  function OpenModal(page: Page, p: Project, keyed: bool): (r: Page)
    requires Mounted(page)
    ensures r.selected == Some(p) && r.isModalOpen && ModalVisible(r)
    ensures !ModalVisible(page) ==> r.slider == Some(InitialImageIndex)
  {
    Rerender(page, Some(p), true, keyed)
  }

  /** `closeModal()`. */
  function CloseModal(page: Page, keyed: bool): (r: Page)
    requires Mounted(page)
    ensures r == InitialPage
    ensures !ModalVisible(r)
  {
    Rerender(page, None, false, keyed)
  }

  /** The events the section reacts to. */
  datatype PageEvent = Open(project: Project) | Close | Slide(e: SliderEvent)

  /** The slider button `e` is on screen in the rendered modal `v`: the arrows and dots are drawn,
      and a dot names one of the drawn dots. */
  predicate ButtonShown(v: Option<ModalView>, e: SliderEvent) {
    && v.Some? && v.value.slider.Some? && v.value.slider.value.controls
    && (e.Dot? ==> 0 <= e.target < |v.value.slider.value.dots|)
  }

  /** Which events the page can deliver. Every card and every "View Case Study" button opens its
      own project. At widths of 768px and up the buttons stay reachable from the keyboard while
      the modal covers them, so a project of the list can be opened in any state; below that
      width they are hidden and cannot take focus, and allowing `Open` in every state
      over-approximates that layout. The slider's arrows and dots are pressable exactly when the
      rendered modal draws them. */
  function Enabled(page: Page, ev: PageEvent): (r: bool)
    ensures ev.Open? ==> (r <==> ev.project in Catalogue)
    ensures Mounted(page) && ev.Slide? ==> (r <==> ButtonShown(RenderModal(page), ev.e))
  {
    match ev
    case Open(q) => q in Catalogue
    case Close => true
    case Slide(e) =>
      && ModalVisible(page)
      && |ModalImages(page.selected.value)| > 1
      && (e.Dot? ==> 0 <= e.target < |ModalImages(page.selected.value)|)
  }

  function Step(page: Page, ev: PageEvent, keyed: bool): (r: Page)
    requires Mounted(page) && Enabled(page, ev)
    ensures Mounted(r)
    ensures Listed(page) ==> Listed(r)
    ensures Valid(page) && !ev.Open? ==> Valid(r)
    ensures Valid(page) && ev.Open? && !ModalVisible(page) ==> Valid(r)
    ensures Valid(page) && Listed(page) && keyed ==> Valid(r)
  {
    match ev
    case Open(p) =>
      IdsAreUnique();
      OpenModal(page, p, keyed)
    case Close => CloseModal(page, keyed)
    case Slide(e) =>
      var count := |ModalImages(page.selected.value)|;
      page.(slider := Some(SliderStep(page.slider.value, count, e)))
  }

  /** Events delivered in order, each one enabled in the state it meets. */
  predicate Feasible(page: Page, evs: seq<PageEvent>, keyed: bool)
    requires Mounted(page)
    decreases |evs|
  {
    |evs| == 0 || (Enabled(page, evs[0]) && Feasible(Step(page, evs[0], keyed), evs[1..], keyed))
  }

  function RunPage(page: Page, evs: seq<PageEvent>, keyed: bool): (r: Page)
    requires Mounted(page) && Feasible(page, evs, keyed)
    ensures Mounted(r)
    decreases |evs|
  {
    if |evs| == 0 then page else RunPage(Step(page, evs[0], keyed), evs[1..], keyed)
  }

  /** With the slider keyed by project, whatever the user clicks or tabs to: the slider index names
      an image of the project in the modal (or is 0 for an empty list), so the image is defined
      and the badge reads `k / n` with `1 <= k <= n`. */
  lemma {:induction false} RunPageIsValid(page: Page, evs: seq<PageEvent>)
    requires Valid(page) && Listed(page) && Feasible(page, evs, true)
    ensures Valid(RunPage(page, evs, true))
    ensures var v := RenderModal(RunPage(page, evs, true));
            v.Some? && v.value.slider.Some? ==>
              v.value.slider.value.image.Some? && 1 <= v.value.slider.value.position <= v.value.slider.value.total
    decreases |evs|
  {
    if |evs| > 0 {
      RunPageIsValid(Step(page, evs[0], true), evs[1..]);
    }
  }

  /** The first render is valid, so every reachable page is. */
  lemma InitialPageIsValid()
    ensures Valid(InitialPage) && Listed(InitialPage) && !ModalVisible(InitialPage)
  {
  }

  /** Opening then closing restores the first render, whatever was shown before. */
  lemma OpenThenCloseRestores(page: Page, p: Project, keyed: bool)
    requires Mounted(page)
    ensures CloseModal(OpenModal(page, p, keyed), keyed) == InitialPage
  {
  }

  /** Reopening (after a close) always shows the project's first image. */
  lemma ReopenStartsAtFirstImage(page: Page, p: Project, q: Project, keyed: bool)
    requires Mounted(page)
    ensures OpenModal(CloseModal(OpenModal(page, p, keyed), keyed), q, keyed).slider == Some(InitialImageIndex)
  {
  }

  /** What the modal shows: nothing, or the project with its slider. */
  datatype ModalView = ModalView(title: string, slider: Option<SliderView>, techStack: seq<string>)

  /** One render of `ProjectModal` inside the section. */
  function RenderModal(page: Page): (v: Option<ModalView>)
    requires Mounted(page)
    ensures v.Some? <==> page.isModalOpen && page.selected.Some?
    ensures v.Some? ==> v.value.title == page.selected.value.title
    ensures v.Some? ==> v.value.techStack == page.selected.value.techStack
    ensures v.Some? ==> (v.value.slider.Some? <==> page.selected.value.images != Some([]))
    ensures v.Some? && v.value.slider.Some? ==> v.value.slider.value.position == page.slider.value + 1
    ensures v.Some? && v.value.slider.Some? ==> (v.value.slider.value.image.Some? <==> Valid(page))
  {
    if !ModalVisible(page) then None
    else
      var p := page.selected.value;
      Some(ModalView(p.title, RenderSlider(ModalImages(p), page.slider.value), p.techStack))
  }

  /** As written, opening another project while the modal shows keeps the slider's index; when
      that index is past the end of the new project's images, the page is no longer valid: the
      image is `undefined` and the badge reads `k / n` with `k > n`. */
  lemma OpenWhileShowingStrandsIndex(page: Page, q: Project)
    requires Valid(page) && ModalVisible(page) && q in Catalogue
    requires page.slider.value >= |ModalImages(q)|
    ensures Enabled(page, Open(q))
    ensures var r := Step(page, Open(q), false);
            && !Valid(r)
            && RenderModal(r).value.slider.value.image.None?
            && RenderModal(r).value.slider.value.position > RenderModal(r).value.slider.value.total
  {
  }

  /** The shortest way there: open the first project, press "next" three times to its fourth
      image, then tab to the second project's "View Case Study" button and press it. */
  lemma StrandedAfterFiveEvents()
    ensures var evs := [Open(Catalogue[0]), Slide(Next), Slide(Next), Slide(Next), Open(Catalogue[1])];
            && Feasible(InitialPage, evs, false)
            && RunPage(InitialPage, evs, false) == Page(Some(Catalogue[1]), true, Some(3))
            && RenderModal(RunPage(InitialPage, evs, false)).value.slider.value.image.None?
            && RenderModal(RunPage(InitialPage, evs, false)).value.slider.value.position == 4
            && RenderModal(RunPage(InitialPage, evs, false)).value.slider.value.total == 3
  {
    CatalogueFacts();
    var evs := [Open(Catalogue[0]), Slide(Next), Slide(Next), Slide(Next), Open(Catalogue[1])];
    var p1 := Step(InitialPage, evs[0], false);
    assert p1 == Page(Some(Catalogue[0]), true, Some(0));
    var p2 := Step(p1, evs[1], false);
    assert p2.slider == Some(1);
    var p3 := Step(p2, evs[2], false);
    assert p3.slider == Some(2);
    var p4 := Step(p3, evs[3], false);
    assert p4 == Page(Some(Catalogue[0]), true, Some(3));
    var p5 := Step(p4, evs[4], false);
    assert p5 == Page(Some(Catalogue[1]), true, Some(3));
    assert Feasible(p5, evs[5..], false) && RunPage(p5, evs[5..], false) == p5;
    assert Feasible(p4, evs[4..], false) && RunPage(p4, evs[4..], false) == p5;
    assert Feasible(p3, evs[3..], false) && RunPage(p3, evs[3..], false) == p5;
    assert Feasible(p2, evs[2..], false) && RunPage(p2, evs[2..], false) == p5;
    assert Feasible(p1, evs[1..], false) && RunPage(p1, evs[1..], false) == p5;
  }

  // ---------------------------------------------------------------------------------------------
  // ProjectCard

  /** The card's tech-stack row: the first entries as badges, then a "+N" badge for the rest. */
  datatype TechPreview = TechPreview(shown: seq<string>, overflow: Option<int>)

  /** How many tech entries a card shows before the "+N" badge. */
  const PreviewLimit := 4

  /** `techStack.slice(0, 4)` and `techStack.length > 4 && +{techStack.length - 4}`. */
  function CardTechPreview(techStack: seq<string>): (t: TechPreview)
    ensures |t.shown| == JsMath.Min(PreviewLimit, |techStack|)
    ensures t.shown == techStack[..|t.shown|]
    ensures t.overflow.Some? <==> |techStack| > PreviewLimit
    ensures |t.shown| + t.overflow.GetOr(0) == |techStack|
  {
    var shown := if |techStack| <= PreviewLimit then techStack else techStack[..PreviewLimit];
    TechPreview(shown, if |techStack| > PreviewLimit then Some(|techStack| - PreviewLimit) else None)
  }

  /** The badges and the hidden remainder together are the whole stack, in order. */
  lemma PreviewLosesNothing(techStack: seq<string>)
    ensures var t := CardTechPreview(techStack);
            t.shown + techStack[|t.shown|..] == techStack
            && |techStack[|t.shown|..]| == t.overflow.GetOr(0)
  {
  }

  // ---------------------------------------------------------------------------------------------
  // The two projects on the page

  const Catalogue: seq<Project> := [
    Project("beawesome-gpt", "BEAWESOME GPT", "stinson4.png",
            Some(["stinson4.png", "stinson3.png", "stinson2.png", "stinson1.png"]),
            ["React", "TypeScript", "GSAP", "Express.js", "MongoDB", "OpenAI GPT‑3.5 API", "Pinecone"]),
    Project("neuroforce-mern", "Neuroforce (MERN Migration)", "neuro1.png",
            Some(["neuro1.png", "neuro2.png", "neuro3.png"]),
            ["React", "Node.js", "Express.js", "MongoDB", "JWT", "REST API"])
  ]

  /** The cards read "+3" and "+2"; the modal sliders have four and three images. */
  lemma CatalogueFacts()
    ensures CardTechPreview(Catalogue[0].techStack).overflow == Some(3)
    ensures CardTechPreview(Catalogue[1].techStack).overflow == Some(2)
    ensures |ModalImages(Catalogue[0])| == 4 && |ModalImages(Catalogue[1])| == 3
  {
  }

  /** The key identifies the project: no two projects on the page share an id. */
  lemma IdsAreUnique()
    ensures forall p, q :: p in Catalogue && q in Catalogue && p.id == q.id ==> p == q
  {
  }

  /** Last image of the first project, close, open the second: its first image shows, never a
      stale fourth one. */
  lemma SwitchingProjectsShowsFirstImage(keyed: bool)
    ensures var shown := Page(Some(Catalogue[0]), true, Some(3));
            var reopened := OpenModal(CloseModal(shown, keyed), Catalogue[1], keyed);
            Valid(shown) && reopened.slider == Some(0)
            && RenderSlider(ModalImages(Catalogue[1]), 0).value.image == Some("neuro1.png")
  {
  }
}
