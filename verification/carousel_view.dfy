/**
 What the project carousel shows for a given slide index: a window of three
 cards (the previous, the centred and the next project) and one indicator dot
 per project, the dot of the centred project marked active.
 */
module CarouselView {
  import opened CarouselIndex
  import opened CarouselState

  /** One project card's content. */
  datatype Project = Project(id: string, title: string, description: string, image: string, details: string)

  /** The centred card is enlarged and shows its details; the others are sides. */
  datatype Position = Center | Side

  /** A slot of the visible window: which project, and where it sits. */
  datatype Slot = Slot(index: nat, position: Position)

  /** A rendered card: the slot's project record together with its position. */
  datatype Card = Card(index: nat, project: Project, position: Position)

  /** The fixed list of projects the carousel rotates through. */
  const Projects: seq<Project> := [
    Project("1", "Portfolio Website", "My personal portfolio, built with Next.js and shadcn/ui.",
            "/placeholder.svg", "This project showcases my skills in frontend development and responsive design."),
    Project("2", "AI Chatbot", "A chatbot powered by the latest in LLM technology.",
            "/placeholder.svg", "This project explores natural language processing and API integrations."),
    Project("3", "E-commerce Platform", "Full-stack e-commerce solution with payment integration.",
            "/placeholder.svg", "Built with React, Node.js, and Stripe for secure payments."),
    Project("4", "Task Management App", "Collaborative task management with real-time updates.",
            "/placeholder.svg", "Features real-time collaboration using WebSockets and React.")
  ]

  /** The intended window around slide `c`: its left neighbour, itself, its
      right neighbour, with only the middle one centred. */
  function Window(c: nat, n: nat): (w: seq<Slot>)
    requires n > 0
    ensures |w| == 3
    ensures forall j :: 0 <= j < 3 ==> w[j].index < n
    ensures forall j :: 0 <= j < 3 ==> (w[j].position == Center <==> j == 1)
    ensures c < n ==> w[1].index == c
  {
    [Slot(PrevIndex(c, n), Side), Slot(c % n, Center), Slot(NextIndex(c, n), Side)]
  }

  /** Builds the three visible cards around slide `c`, taking the slots at
      offsets -1, 0 and +1 from `c` modulo the number of projects. */
  method GetVisibleProjects(projects: seq<Project>, c: nat) returns (cards: seq<Card>)
    requires |projects| > 0
    ensures |cards| == 3
    ensures forall j :: 0 <= j < 3 ==>
      cards[j].index == Window(c, |projects|)[j].index &&
      cards[j].position == Window(c, |projects|)[j].position &&
      cards[j].project == projects[cards[j].index]
    ensures forall j :: 0 <= j < 3 ==> (cards[j].position == Center <==> j == 1)
    ensures c < |projects| ==> cards[1].index == c
  {
    var n := |projects|;
    ghost var w := Window(c, n);
    cards := [];
    var i := -1;
    while i <= 1
      invariant -1 <= i <= 2
      invariant |cards| == i + 1
      invariant forall j :: 0 <= j < |cards| ==>
        cards[j].index == w[j].index && cards[j].position == w[j].position &&
        cards[j].project == projects[cards[j].index]
    {
      var index := (c + i + n) % n;
      if i >= 0 {
        ModAddCycle(c + i, n);
      }
      if c < n && i == 0 {
        ModUnique(c, 0, c, n);
      }
      cards := cards + [Card(index, projects[index], if i == 0 then Center else Side)];
      i := i + 1;
    }
    if c < n {
      ModUnique(c, 0, c, n);
    }
  }

  /** Adding one full cycle does not change the residue. */
  lemma ModAddCycle(a: int, n: nat)
    requires n > 0
    requires a >= 0
    ensures (a + n) % n == a % n
  {
    ModUnique(a + n, a / n + 1, a % n, n);
  }

  /** With at least three projects the window shows three different projects. */
  lemma WindowIndicesDistinct(c: nat, n: nat)
    requires n >= 3
    requires c < n
    ensures Window(c, n)[0].index != Window(c, n)[1].index
    ensures Window(c, n)[1].index != Window(c, n)[2].index
    ensures Window(c, n)[0].index != Window(c, n)[2].index
  {
  }

  /** With one or two projects the left and right neighbours coincide. */
  lemma WindowSidesCoincide(c: nat, n: nat)
    requires 0 < n <= 2
    requires c < n
    ensures Window(c, n)[0].index == Window(c, n)[2].index
  {
  }

  /** Moving one slide forward shifts the window left by one slot: the old
      centre becomes the left side and the old right side becomes the centre. */
  lemma WindowShiftsOnNext(c: nat, n: nat)
    requires n > 0
    requires c < n
    ensures Window(NextIndex(c, n), n)[0].index == Window(c, n)[1].index
    ensures Window(NextIndex(c, n), n)[1].index == Window(c, n)[2].index
  {
    PrevUndoesNext(c, n);
    ModUnique(c, 0, c, n);
    ModUnique(NextIndex(c, n), 0, NextIndex(c, n), n);
  }

  /** Every card key of the real project list is unique on screen. */
  lemma VisibleKeysDistinct(c: nat)
    requires c < |Projects|
    ensures forall j, l :: 0 <= j < l < 3 ==>
      Projects[Window(c, |Projects|)[j].index].id != Projects[Window(c, |Projects|)[l].index].id
  {
  }

  /** The indicator row: one dot per project, active when its index is `c`. */
  function Dots(c: nat, n: nat): (dots: seq<bool>)
    ensures |dots| == n
    ensures forall i :: 0 <= i < n ==> (dots[i] <==> i == c)
  {
    seq(n, i => i == c)
  }

  /** The number of active dots. */
  function CountActive(dots: seq<bool>): (k: nat)
    ensures k <= |dots|
  {
    if dots == [] then 0
    else CountActive(dots[..|dots| - 1]) + (if dots[|dots| - 1] then 1 else 0)
  }

  /** Exactly one dot is active when the index is in range, and none otherwise. */
  lemma {:induction false} OneActiveDot(c: nat, n: nat)
    ensures CountActive(Dots(c, n)) == (if c < n then 1 else 0)
    ensures c < n ==> Dots(c, n)[c]
  {
    if n > 0 {
      assert Dots(c, n)[..n - 1] == Dots(c, n - 1);
      OneActiveDot(c, n - 1);
    }
  }

  /** The active dot and the centred card always name the same project. */
  lemma ActiveDotIsCentre(s: State, n: nat)
    requires n > 0
    requires Valid(s, n)
    ensures Dots(s.index, n)[Window(s.index, n)[1].index]
    ensures forall i :: 0 <= i < n && Dots(s.index, n)[i] ==> i == Window(s.index, n)[1].index
  {
  }

  /** Clicking dot `k` makes dot `k` the one active dot. */
  lemma DotClickActivatesDot(s: State, k: nat, n: nat)
    requires n > 0
    requires k < n
    ensures Dots(Step(s, GoToSlide(k), n).index, n)[k]
    ensures CountActive(Dots(Step(s, GoToSlide(k), n).index, n)) == 1
  {
    OneActiveDot(k, n);
  }
}
